/** The rule table of the notation, as data, and the engine step that drives it: before-hook,
    first matching alternative, consumption less backup, action, then push, replace, stay or pop.
    `caps` selects the Rust front-end, which refuses a source that nests too deeply; without it
    the table is the TypeScript one. */
module Table {
  import opened Text
  import opened Ir
  import opened Terminals
  import opened Postfix
  import opened Lexer

  const MAX_GROUP_DEPTH: nat := 512

  const MAX_NEST_DEPTH: nat := 130

  // ---- the table

  datatype RuleName = Gbnf | Prod | Alts | Seq | Elem | Atom

  datatype Kind = KNm | KDef | KAlt | KLp | KRp | KDot | KGs | KCc | KPost | KTok | KZz

  function KindOf(tok: Token): (k: Kind) {
    match tok
    case NM(_) => KNm case DEF => KDef case ALT => KAlt case LP => KLp case RP => KRp case DOT => KDot
    case GS(_) => KGs case CC(_) => KCc case POST(_) => KPost case TOK(_) => KTok case ZZ => KZz
  }

  datatype Action =
    | Nothing | ProdName | ElemPost | ElemPlain
    | AtomGs | AtomCc | AtomDot | AtomTok | AtomNm | AtomLp | AtomGroupClose

  datatype Next = Stay | PushRule(rule: RuleName) | ReplaceBy(rule: RuleName)

  /** One alternative: tokens to match, whether only a group takes it, its action, what it does
      to the rule stack, and how many matched tokens it hands back. */
  datatype Alt = Alt(s: seq<Kind>, grouped: bool, a: Action, next: Next, b: nat)

  function Take(s: seq<Kind>, a: Action, next: Next): (alt: Alt) { Alt(s, false, a, next, 0) }

  function Peek(s: seq<Kind>, next: Next): (alt: Alt) { Alt(s, false, Nothing, next, |s|) }

  /** `{ b: 1 }` alone: matches anything, consumes nothing. */
  const POP: Alt := Alt([], false, Nothing, Stay, 1)

  function SeqAlts(): (alts: seq<Alt>) {
    [Peek([KNm, KDef], Stay), Peek([KAlt], Stay), Peek([KRp], Stay), Peek([KZz], Stay),
     Take([], Nothing, PushRule(Elem))]
  }

  function OpenAlts(rule: RuleName): (alts: seq<Alt>) {
    match rule
    case Gbnf => [Take([KZz], Nothing, Stay), Take([], Nothing, PushRule(Prod))]
    case Prod => [Take([KNm, KDef], ProdName, PushRule(Alts))]
    case Alts => [Take([], Nothing, PushRule(Seq))]
    case Seq => SeqAlts()
    case Elem => [Take([], Nothing, PushRule(Atom))]
    case Atom =>
      [Take([KGs], AtomGs, Stay), Take([KCc], AtomCc, Stay), Take([KDot], AtomDot, Stay),
       Take([KTok], AtomTok, Stay), Take([KNm], AtomNm, Stay), Take([KLp], AtomLp, PushRule(Alts))]
  }

  function CloseAlts(rule: RuleName): (alts: seq<Alt>) {
    match rule
    case Gbnf => [Take([KZz], Nothing, Stay)]
    case Prod => [Peek([KNm, KDef], ReplaceBy(Prod)), POP]
    case Alts => [Take([KAlt], Nothing, PushRule(Seq)), POP]
    case Seq => SeqAlts()
    case Elem => [Take([KPost], ElemPost, Stay), Take([], ElemPlain, Stay)]
    case Atom => [Alt([KRp], true, AtomGroupClose, Stay, 0), POP]
  }

  // ---- the state of a parse

  /** A rule's node. `prod` and `elem` inherit their parent's array and push into that. */
  datatype Node =
    | Undefined
    | Prods(ps: seq<Production>)
    | Alternatives(alts: seq<Sequence>)
    | Elements(els: seq<Element>)
    | Single(el: Element)

  /** A rule under way: its phase, its node, the node its last child left, and its bag. */
  datatype Frame = Frame(rule: RuleName, closing: bool, node: Node, child: Node,
                         name: string, grouped: bool, outer: nat)

  function Fresh(rule: RuleName): (f: Frame) { Frame(rule, false, Undefined, Undefined, "", false, 0) }

  datatype Stack = Bottom | Rules(top: Frame, below: Stack)

  function Depth(s: Stack): (n: nat) { if s.Bottom? then 0 else 1 + Depth(s.below) }

  /** `nest`: the depth of the element just completed. `level`: the greatest depth completed at
      the current group level. */
  datatype Registers = Registers(nest: nat, level: nat)

  function Note(regs: Registers): (r: Registers) {
    if regs.level < regs.nest then regs.(level := regs.nest) else regs
  }

  datatype Failure = Syntax | Decode | GroupTooDeep | NestTooDeep

  datatype State =
    | Running(stack: Stack, rest: seq<Token>, regs: Registers)
    | Done(prods: seq<Production>)
    | Failed(failure: Failure)

  function Start(tokens: seq<Token>): (st: State) {
    Running(Rules(Fresh(Gbnf), Bottom), tokens, Registers(0, 0))
  }

  // ---- one step

  function At(rest: seq<Token>, i: nat): (tok: Token) { if i < |rest| then rest[i] else ZZ }

  predicate Matches(alt: Alt, rest: seq<Token>, grouped: bool) {
    (forall i :: 0 <= i < |alt.s| ==> KindOf(At(rest, i)) == alt.s[i]) && (alt.grouped ==> grouped)
  }

  function FirstMatch(alts: seq<Alt>, rest: seq<Token>, grouped: bool): (r: Option<Alt>) {
    if alts == [] then None
    else if Matches(alts[0], rest, grouped) then Some(alts[0])
    else FirstMatch(alts[1..], rest, grouped)
  }

  /** Append to the array the parent rule holds. */
  function PushElement(s: Stack, el: Element): (r: Stack) {
    if s.Rules? && s.top.node.Elements? then s.(top := s.top.(node := Elements(s.top.node.els + [el]))) else s
  }

  function PushProduction(s: Stack, p: Production): (r: Stack) {
    if s.Rules? && s.top.node.Prods? then s.(top := s.top.(node := Prods(s.top.node.ps + [p]))) else s
  }

  /** The before-open and before-close hooks. */
  function Hook(s: Stack): (r: Stack)
    requires s.Rules?
    ensures r.Rules?
  {
    var f := s.top;
    if !f.closing then
      match f.rule
      case Gbnf => s.(top := f.(node := Prods([])))
      case Alts => s.(top := f.(node := Alternatives([])))
      case Seq => s.(top := f.(node := Elements([])))
      case Atom => s.(top := f.(node := Undefined, grouped := false))
      case _ => s
    else if f.rule == Prod && f.child.Alternatives? then
      Rules(f, PushProduction(s.below, Production(f.name, f.child.alts)))
    else if f.rule == Alts && f.child.Elements? && f.node.Alternatives? then
      s.(top := f.(node := Alternatives(f.node.alts + [Sequence(f.child.els)])))
    else s
  }

  /** Every atom is a terminal, one deep, until it proves a group. */
  function HookRegs(f: Frame, regs: Registers): (r: Registers) {
    if f.rule == Atom && !f.closing then regs.(nest := 1) else regs
  }

  function NestLimit(caps: bool): (l: Option<nat>) { if caps then Some(MAX_NEST_DEPTH) else None }

  datatype Acted = Acted(stack: Stack, regs: Registers)

  function SetNode(s: Stack, el: Element): (r: Stack)
    requires s.Rules?
  {
    s.(top := s.top.(node := Single(el)))
  }

  function Act(caps: bool, a: Action, s: Stack, tok: Token, regs: Registers): (r: Result<Acted, Failure>)
    requires s.Rules?
    ensures r.Ok? ==> r.value.stack.Rules?
  {
    var f := s.top;
    match a
    case Nothing => Ok(Acted(s, regs))
    case ProdName => Ok(Acted(if tok.NM? then s.(top := f.(name := tok.src)) else s, regs))
    case ElemPost =>
      if !f.child.Single? || !tok.POST? then Ok(Acted(s, regs))
      else (match ApplyPostfix(f.child.el, tok.src, regs.nest, NestLimit(caps))
        case Err(BadCount) => Err(Decode)
        case Err(TooDeep) => Err(NestTooDeep)
        case Ok(l) => Ok(Acted(s.(below := PushElement(s.below, l.item)), Note(regs.(nest := l.depth)))))
    case ElemPlain =>
      if !f.child.Single? then Ok(Acted(s, regs))
      else Ok(Acted(s.(below := PushElement(s.below, f.child.el)), Note(regs)))
    case AtomGs =>
      if !tok.GS? then Ok(Acted(s, regs))
      else (match DecodeString(tok.src)
        case None => Err(Decode)
        case Some(text) => Ok(Acted(if text == "" then s else SetNode(s, Term(text, true)), regs)))
    case AtomCc =>
      if !tok.CC? then Ok(Acted(s, regs))
      else (match DecodeClass(tok.src)
        case None => Err(Decode)
        case Some(c) => Ok(Acted(SetNode(s, Regex(EmitClass(c), FlagsFor(c))), regs)))
    case AtomDot => Ok(Acted(SetNode(s, Regex(ANY_PATTERN, "u")), regs))
    case AtomTok =>
      if !tok.TOK? then Ok(Acted(s, regs))
      else Ok(Acted(SetNode(s, TokTerm(tok.src, tok.src != "" && tok.src[0] == '!')), regs))
    case AtomNm => Ok(Acted(if tok.NM? then SetNode(s, Ref(tok.src)) else s, regs))
    case AtomLp =>
      if caps && MAX_GROUP_DEPTH < Depth(s.below) then Err(GroupTooDeep)
      else Ok(Acted(s.(top := f.(grouped := true, outer := regs.level)), regs.(level := 0)))
    case AtomGroupClose =>
      if caps && MAX_NEST_DEPTH < regs.level + 1 then Err(NestTooDeep)
      else
        var alts := if f.child.Alternatives? then f.child.alts else [];
        Ok(Acted(SetNode(s, Group(alts)), Registers(regs.level + 1, f.outer)))
  }

  /** Leave a rule: its node becomes the parent's child node. */
  function Return(below: Stack, node: Node): (r: Stack) {
    if below.Bottom? then below else below.(top := below.top.(child := node))
  }

  function Drop(rest: seq<Token>, n: nat): (r: seq<Token>) { if n <= |rest| then rest[n..] else [] }

  function Consumed(alt: Alt): (n: nat) { if alt.b <= |alt.s| then |alt.s| - alt.b else 0 }

  function Move(next: Next, s: Stack, rest: seq<Token>, regs: Registers): (st: State)
    requires s.Rules?
  {
    var closed := s.(top := s.top.(closing := true));
    match next
    case PushRule(rule) => Running(Rules(Fresh(rule), closed), rest, regs)
    case ReplaceBy(rule) => Running(Rules(Fresh(rule), s.below), rest, regs)
    case Stay =>
      if !s.top.closing then Running(closed, rest, regs)
      else if s.below.Rules? then Running(Return(s.below, s.top.node), rest, regs)
      else if rest == [] && s.top.node.Prods? then Done(s.top.node.ps)
      else Failed(Syntax)
  }

  function Step(caps: bool, st: State): (r: State) {
    if !st.Running? || st.stack.Bottom? then st
    else
      var f := st.stack.top;
      var s := Hook(st.stack);
      var regs := HookRegs(f, st.regs);
      match FirstMatch(if f.closing then CloseAlts(f.rule) else OpenAlts(f.rule), st.rest, s.top.grouped)
      case None => Failed(Syntax)
      case Some(alt) =>
        match Act(caps, alt.a, s, At(st.rest, 0), regs)
        case Err(e) => Failed(e)
        case Ok(did) => Move(alt.next, did.stack, Drop(st.rest, Consumed(alt)), did.regs)
  }

  function Run(caps: bool, st: State, n: nat): (r: State)
    decreases n
  {
    if n == 0 then st else Run(caps, Step(caps, st), n - 1)
  }

  lemma {:induction false} RunAdd(caps: bool, st: State, m: nat, n: nat)
    ensures Run(caps, st, m + n) == Run(caps, Run(caps, st, m), n)
    decreases m
  {
    hide Step;
    if m != 0 { RunAdd(caps, Step(caps, st), m - 1, n); }
  }

  lemma {:induction false} RunSettled(caps: bool, st: State, n: nat)
    requires !st.Running?
    ensures Run(caps, st, n) == st
    decreases n
  {
    if n != 0 { RunSettled(caps, st, n - 1); }
  }

  // ---- the driver

  /** The engine's step budget: twice the rules, the source length and the rule multiplier,
      times two, and never under a hundred. */
  function Budget(length: nat): (n: nat) {
    if 72 * length < 100 then 100 else 72 * length
  }

  function Outcome(st: State): (r: Result<seq<Production>, Failure>) {
    match st
    case Done(ps) => Ok(ps)
    case Failed(e) => Err(e)
    case Running(_, _, _) => Err(Syntax)
  }

  function ParseTokens(caps: bool, tokens: seq<Token>, length: nat): (r: Result<seq<Production>, Failure>) {
    Outcome(Run(caps, Start(tokens), Budget(length)))
  }

  /** The engine under way: the rule stack, the tokens left and the registers, updated a step at
      a time until the parse settles or the budget is spent. */
  class Engine {
    const caps: bool
    var stack: Stack
    var rest: seq<Token>
    var regs: Registers
    var verdict: Option<Result<seq<Production>, Failure>>

    ghost predicate Valid()
      reads this
    {
      verdict.None? ==> stack.Rules?
    }

    ghost function Now(): (st: State)
      reads this
    {
      match verdict
      case None => Running(stack, rest, regs)
      case Some(Ok(ps)) => Done(ps)
      case Some(Err(e)) => Failed(e)
    }

    constructor (caps: bool, tokens: seq<Token>)
      ensures Valid() && Now() == Start(tokens) && this.caps == caps
    {
      this.caps := caps;
      stack, rest, regs, verdict := Rules(Fresh(Gbnf), Bottom), tokens, Registers(0, 0), None;
    }

    method Advance()
      requires Valid() && verdict.None?
      modifies this
      ensures Valid() && Now() == Step(caps, old(Now()))
    {
      var f := stack.top;
      stack := Hook(stack);
      regs := HookRegs(f, regs);
      var found := FirstMatch(if f.closing then CloseAlts(f.rule) else OpenAlts(f.rule), rest, stack.top.grouped);
      if found.None? { verdict := Some(Err(Syntax)); return; }
      var alt := found.value;
      var did := Act(caps, alt.a, stack, At(rest, 0), regs);
      if did.Err? { verdict := Some(Err(did.error)); return; }
      stack, regs, rest := did.value.stack, did.value.regs, Drop(rest, Consumed(alt));
      match alt.next
      case PushRule(rule) =>
        stack := Rules(Fresh(rule), stack.(top := stack.top.(closing := true)));
      case ReplaceBy(rule) =>
        stack := Rules(Fresh(rule), stack.below);
      case Stay =>
        if !stack.top.closing {
          stack := stack.(top := stack.top.(closing := true));
        } else if stack.below.Rules? {
          stack := Return(stack.below, stack.top.node);
        } else if rest == [] && stack.top.node.Prods? {
          verdict := Some(Ok(stack.top.node.ps));
        } else {
          verdict := Some(Err(Syntax));
        }
    }

    method Finish(budget: nat) returns (r: Result<seq<Production>, Failure>)
      requires Valid()
      modifies this
      ensures Valid() && Now() == Run(caps, old(Now()), budget)
      ensures r == Outcome(Now())
    {
      hide Step;
      var left: nat := budget;
      while left > 0 && verdict.None?
        invariant left <= budget && Valid()
        invariant Run(caps, Now(), left) == Run(caps, old(Now()), budget)
        decreases left
      {
        Advance();
        left := left - 1;
      }
      if verdict.Some? { RunSettled(caps, Now(), left); }
      r := if verdict.Some? then verdict.value else Err(Syntax);
    }
  }
}
