/** What the rule table computes: on every token sequence, the derivation of that sequence,
    evaluated bottom up; and within the engine's step budget. */
module TableProof {
  import opened Text
  import opened Ir
  import opened Terminals
  import opened Postfix
  import opened Lexer
  import opened Derivation
  import opened Table

  // ---- evaluating a derivation

  /** What an atom leaves: its element, unless it contributes none, and the registers. */
  datatype AtomValue = AtomValue(item: Option<Element>, regs: Registers)

  function EvalLeaf(tok: Token, regs: Registers): (r: Result<AtomValue, Failure>) {
    var one := regs.(nest := 1);
    match tok
    case GS(src) =>
      (match DecodeString(src)
       case None => Err(Decode)
       case Some(text) => Ok(AtomValue(if text == "" then None else Some(Term(text, true)), one)))
    case CC(src) =>
      (match DecodeClass(src)
       case None => Err(Decode)
       case Some(c) => Ok(AtomValue(Some(Regex(EmitClass(c), FlagsFor(c))), one)))
    case DOT => Ok(AtomValue(Some(Regex(ANY_PATTERN, "u")), one))
    case TOK(src) => Ok(AtomValue(Some(TokTerm(src, src != "" && src[0] == '!')), one))
    case NM(src) => Ok(AtomValue(Some(Ref(src)), one))
    case _ => Err(Syntax)
  }

  /** An atom under `n` parentheses. An unclosed parenthesis contributes nothing. */
  function EvalAtom(caps: bool, n: nat, a: AtomTree, regs: Registers): (r: Result<AtomValue, Failure>)
    decreases a, 0
  {
    match a
    case Leaf(tok) => EvalLeaf(tok, regs)
    case Paren(alts, closed) =>
      if caps && MAX_GROUP_DEPTH < 4 * n + 5 then Err(GroupTooDeep)
      else match EvalAlts(caps, n + 1, alts, Registers(1, 0))
        case Err(e) => Err(e)
        case Ok((inner, end)) =>
          if !closed then Ok(AtomValue(None, end))
          else if caps && MAX_NEST_DEPTH < end.level + 1 then Err(NestTooDeep)
          else Ok(AtomValue(Some(Group(inner)), Registers(end.level + 1, regs.level)))
  }

  function EvalPost(caps: bool, v: AtomValue, post: Option<string>): (r: Result<AtomValue, Failure>) {
    match v.item
    case None => Ok(v)
    case Some(el) =>
      if post.None? then Ok(v.(regs := Note(v.regs)))
      else match ApplyPostfix(el, post.value, v.regs.nest, NestLimit(caps))
        case Err(BadCount) => Err(Decode)
        case Err(TooDeep) => Err(NestTooDeep)
        case Ok(l) => Ok(AtomValue(Some(l.item), Note(v.regs.(nest := l.depth))))
  }

  function EvalElem(caps: bool, n: nat, e: ElemTree, regs: Registers): (r: Result<AtomValue, Failure>)
    decreases e, 1
  {
    match EvalAtom(caps, n, e.atom, regs)
    case Err(f) => Err(f)
    case Ok(v) => EvalPost(caps, v, e.post)
  }

  function ItemSeq(item: Option<Element>): (els: seq<Element>) {
    if item.Some? then [item.value] else []
  }

  function EvalSeq(caps: bool, n: nat, els: seq<ElemTree>, regs: Registers): (r: Result<(seq<Element>, Registers), Failure>)
    decreases els, 2
  {
    if els == [] then Ok(([], regs))
    else match EvalElem(caps, n, els[0], regs)
      case Err(f) => Err(f)
      case Ok(v) =>
        match EvalSeq(caps, n, els[1..], v.regs)
        case Err(f) => Err(f)
        case Ok((more, end)) => Ok((ItemSeq(v.item) + more, end))
  }

  function EvalAlts(caps: bool, n: nat, alts: seq<SeqTree>, regs: Registers): (r: Result<(seq<Sequence>, Registers), Failure>)
    decreases alts, 3
  {
    if alts == [] then Ok(([], regs))
    else match EvalSeq(caps, n, alts[0].els, regs)
      case Err(f) => Err(f)
      case Ok((els, mid)) =>
        match EvalAlts(caps, n, alts[1..], mid)
        case Err(f) => Err(f)
        case Ok((more, end)) => Ok(([Sequence(els)] + more, end))
  }

  function EvalProds(caps: bool, ps: seq<ProdTree>, regs: Registers): (r: Result<seq<Production>, Failure>) {
    if ps == [] then Ok([])
    else match EvalAlts(caps, 0, ps[0].alts, regs)
      case Err(f) => Err(f)
      case Ok((alts, end)) =>
        match EvalProds(caps, ps[1..], end)
        case Err(f) => Err(f)
        case Ok(more) => Ok([Production(ps[0].name, alts)] + more)
  }

  // ---- the first matching alternative

  lemma {:induction false} FirstMatchAt(alts: seq<Alt>, rest: seq<Token>, grouped: bool, i: nat)
    requires i < |alts| && Matches(alts[i], rest, grouped)
    requires forall j :: 0 <= j < i ==> !Matches(alts[j], rest, grouped)
    ensures FirstMatch(alts, rest, grouped) == Some(alts[i])
  {
    if i != 0 {
      assert forall j :: 0 <= j < i - 1 ==> alts[1..][j] == alts[j + 1];
      FirstMatchAt(alts[1..], rest, grouped, i - 1);
    }
  }

  lemma {:induction false} NoMatch(alts: seq<Alt>, rest: seq<Token>, grouped: bool)
    requires forall j :: 0 <= j < |alts| ==> !Matches(alts[j], rest, grouped)
    ensures FirstMatch(alts, rest, grouped) == None
  {
    if alts != [] {
      assert forall j :: 0 <= j < |alts| - 1 ==> alts[1..][j] == alts[j + 1];
      NoMatch(alts[1..], rest, grouped);
    }
  }

  lemma MatchesOne(alt: Alt, rest: seq<Token>, grouped: bool)
    requires |alt.s| == 1
    ensures Matches(alt, rest, grouped) <==> KindOf(At(rest, 0)) == alt.s[0] && (alt.grouped ==> grouped)
  {
  }

  lemma MatchesTwo(alt: Alt, rest: seq<Token>, grouped: bool)
    requires alt.s == [KNm, KDef] && !alt.grouped && ZZ !in rest
    ensures Matches(alt, rest, grouped) <==> StartsProduction(rest)
  {
    assert alt.s[0] == KNm && alt.s[1] == KDef;
    if Matches(alt, rest, grouped) {
      assert KindOf(At(rest, 0)) == KNm && KindOf(At(rest, 1)) == KDef;
    }
  }

  // ---- one step of each rule

  lemma SeqChoice(rest: seq<Token>)
    requires ZZ !in rest
    ensures Boundary(rest) ==>
              var r := FirstMatch(SeqAlts(), rest, false);
              r.Some? && r.value.a == Nothing && r.value.next == Stay && Consumed(r.value) == 0
    ensures !Boundary(rest) ==> FirstMatch(SeqAlts(), rest, false) == Some(Take([], Nothing, PushRule(Elem)))
  {
    hide Matches;
    var alts := SeqAlts();
    MatchesTwo(alts[0], rest, false);
    MatchesOne(alts[1], rest, false);
    MatchesOne(alts[2], rest, false);
    MatchesOne(alts[3], rest, false);
    if StartsProduction(rest) { FirstMatchAt(alts, rest, false, 0); }
    else if rest == [] { FirstMatchAt(alts, rest, false, 3); }
    else if rest[0] == ALT { FirstMatchAt(alts, rest, false, 1); }
    else if rest[0] == RP { FirstMatchAt(alts, rest, false, 2); }
    else { FirstMatchAt(alts, rest, false, 4); }
  }

  function SeqFrame(acc: seq<Element>): (f: Frame) { Frame(Seq, true, Elements(acc), Undefined, "", false, 0) }

  function AltsFrame(acc: seq<Sequence>, child: Node): (f: Frame) {
    Frame(Alts, true, Alternatives(acc), child, "", false, 0)
  }

  function ElemFrame(child: Node): (f: Frame) { Frame(Elem, true, Undefined, child, "", false, 0) }

  function AtomFrame(node: Node, child: Node, grouped: bool, outer: nat): (f: Frame) {
    Frame(Atom, true, node, child, "", grouped, outer)
  }

  lemma SeqStep(caps: bool, f: Frame, acc: seq<Element>, b: Stack, ts: seq<Token>, regs: Registers)
    requires f == SeqFrame(acc) || (f == Fresh(Seq) && acc == [])
    requires b.Rules? && ZZ !in ts
    ensures !Boundary(ts) ==>
              Step(caps, Running(Rules(f, b), ts, regs)) ==
              Running(Rules(Fresh(Elem), Rules(SeqFrame(acc), b)), ts, regs)
    ensures Boundary(ts) && f.closing ==>
              Step(caps, Running(Rules(f, b), ts, regs)) == Running(Return(b, Elements(acc)), ts, regs)
    ensures Boundary(ts) && !f.closing ==>
              Step(caps, Running(Rules(f, b), ts, regs)) == Running(Rules(SeqFrame([]), b), ts, regs)
  {
    SeqChoice(ts);
    hide FirstMatch, Boundary;
    assert Drop(ts, 0) == ts;
  }

  lemma ElemOpenStep(caps: bool, b: Stack, ts: seq<Token>, regs: Registers)
    ensures Step(caps, Running(Rules(Fresh(Elem), b), ts, regs)) ==
            Running(Rules(Fresh(Atom), Rules(ElemFrame(Undefined), b)), ts, regs)
  {
    FirstMatchAt(OpenAlts(Elem), ts, false, 0);
    assert Drop(ts, 0) == ts;
  }

  /** What an element's value becomes in the sequence that holds it. */
  function Landed(r: Result<AtomValue, Failure>, acc: seq<Element>, b: Stack, ts: seq<Token>): (st: State) {
    match r
    case Err(f) => Failed(f)
    case Ok(v) => Running(Rules(SeqFrame(acc + ItemSeq(v.item)), b), ts, v.regs)
  }

  function Child(item: Option<Element>): (n: Node) { if item.Some? then Single(item.value) else Undefined }

  lemma ElemCloseStep(caps: bool, v: AtomValue, acc: seq<Element>, b: Stack, ts: seq<Token>)
    requires ts != [] ==> ts[0] != ZZ
    ensures var st := Running(Rules(ElemFrame(Child(v.item)), Rules(SeqFrame(acc), b)), ts, v.regs);
            Step(caps, st) ==
            if ts != [] && ts[0].POST? then Landed(EvalPost(caps, v, Some(ts[0].src)), acc, b, ts[1..])
            else Landed(EvalPost(caps, v, None), acc, b, ts)
  {
    hide ApplyPostfix, Matches, FirstMatch;
    var alts := CloseAlts(Elem);
    MatchesOne(alts[0], ts, false);
    assert acc + [] == acc;
    assert Drop(ts, 0) == ts;
    if ts != [] && ts[0].POST? {
      FirstMatchAt(alts, ts, false, 0);
    } else {
      FirstMatchAt(alts, ts, false, 1);
    }
  }

  lemma AtomOpenStep(caps: bool, b: Stack, ts: seq<Token>, regs: Registers)
    requires ts != [] && IsLeaf(ts[0])
    ensures Step(caps, Running(Rules(Fresh(Atom), b), ts, regs)) ==
            match EvalLeaf(ts[0], regs)
            case Err(f) => Failed(f)
            case Ok(v) => Running(Rules(AtomFrame(Child(v.item), Undefined, false, 0), b), ts[1..], v.regs)
  {
    hide DecodeString, DecodeClass, FirstMatch, Matches, EmitClass, FlagsFor;
    AtomChoice(ts);
  }

  /** The kinds an atom can start with, in the order they are tried. */
  function AtomKinds(): (ks: seq<Kind>) { [KGs, KCc, KDot, KTok, KNm, KLp] }

  lemma AtomChoice(ts: seq<Token>)
    requires ts != []
    ensures var alts := OpenAlts(Atom); var r := FirstMatch(alts, ts, false);
            match ts[0]
            case GS(_) => r == Some(alts[0])
            case CC(_) => r == Some(alts[1])
            case DOT => r == Some(alts[2])
            case TOK(_) => r == Some(alts[3])
            case NM(_) => r == Some(alts[4])
            case LP => r == Some(alts[5])
            case _ => r == None
  {
    hide Matches, FirstMatch;
    var alts := OpenAlts(Atom);
    forall i | 0 <= i < |alts| ensures Matches(alts[i], ts, false) <==> KindOf(ts[0]) == AtomKinds()[i] {
      MatchesOne(alts[i], ts, false);
    }
    match ts[0]
    case GS(_) => FirstMatchAt(alts, ts, false, 0);
    case CC(_) => FirstMatchAt(alts, ts, false, 1);
    case DOT => FirstMatchAt(alts, ts, false, 2);
    case TOK(_) => FirstMatchAt(alts, ts, false, 3);
    case NM(_) => FirstMatchAt(alts, ts, false, 4);
    case LP => FirstMatchAt(alts, ts, false, 5);
    case _ => NoMatch(alts, ts, false);
  }

  lemma AtomFailStep(caps: bool, b: Stack, ts: seq<Token>, regs: Registers)
    requires ts == [] || (!IsLeaf(ts[0]) && ts[0] != LP)
    ensures Step(caps, Running(Rules(Fresh(Atom), b), ts, regs)) == Failed(Syntax)
  {
    if ts == [] {
      var alts := OpenAlts(Atom);
      forall i | 0 <= i < |alts| ensures !Matches(alts[i], ts, false) { MatchesOne(alts[i], ts, false); }
      NoMatch(alts, ts, false);
    } else {
      AtomChoice(ts);
    }
  }

  lemma AtomParenStep(caps: bool, b: Stack, ts: seq<Token>, regs: Registers)
    requires ts != [] && ts[0] == LP
    ensures Step(caps, Running(Rules(Fresh(Atom), b), ts, regs)) ==
            if caps && MAX_GROUP_DEPTH < Depth(b) then Failed(GroupTooDeep)
            else Running(Rules(Fresh(Alts), Rules(AtomFrame(Undefined, Undefined, true, regs.level), b)), ts[1..], Registers(1, 0))
  {
    hide FirstMatch;
    AtomChoice(ts);
  }

  lemma AtomPopStep(caps: bool, f: Frame, b: Stack, ts: seq<Token>, regs: Registers)
    requires f.rule == Atom && f.closing && b.Rules?
    requires !f.grouped || ts == [] || ts[0] != RP
    ensures Step(caps, Running(Rules(f, b), ts, regs)) == Running(Return(b, f.node), ts, regs)
  {
    var alts := CloseAlts(Atom);
    MatchesOne(alts[0], ts, f.grouped);
    FirstMatchAt(alts, ts, f.grouped, 1);
    assert Drop(ts, 0) == ts;
  }

  lemma GroupCloseStep(caps: bool, alts: seq<Sequence>, outer: nat, b: Stack, ts: seq<Token>, regs: Registers)
    requires b.Rules? && ts != [] && ts[0] == RP
    ensures Step(caps, Running(Rules(AtomFrame(Undefined, Alternatives(alts), true, outer), b), ts, regs)) ==
            if caps && MAX_NEST_DEPTH < regs.level + 1 then Failed(NestTooDeep)
            else Running(Return(b, Single(Group(alts))), ts[1..], Registers(regs.level + 1, outer))
  {
    var table := CloseAlts(Atom);
    MatchesOne(table[0], ts, true);
    FirstMatchAt(table, ts, true, 0);
  }

  lemma AltsOpenStep(caps: bool, b: Stack, ts: seq<Token>, regs: Registers)
    ensures Step(caps, Running(Rules(Fresh(Alts), b), ts, regs)) ==
            Running(Rules(Fresh(Seq), Rules(AltsFrame([], Undefined), b)), ts, regs)
  {
    FirstMatchAt(OpenAlts(Alts), ts, false, 0);
    assert Drop(ts, 0) == ts;
  }

  lemma AltsCloseStep(caps: bool, acc: seq<Sequence>, els: seq<Element>, b: Stack, ts: seq<Token>, regs: Registers)
    requires b.Rules?
    ensures var more := acc + [Sequence(els)];
            Step(caps, Running(Rules(AltsFrame(acc, Elements(els)), b), ts, regs)) ==
            if ts != [] && ts[0] == ALT
            then Running(Rules(Fresh(Seq), Rules(AltsFrame(more, Elements(els)), b)), ts[1..], regs)
            else Running(Return(b, Alternatives(more)), ts, regs)
  {
    var table := CloseAlts(Alts);
    MatchesOne(table[0], ts, false);
    assert Drop(ts, 0) == ts;
    if ts != [] && ts[0] == ALT { FirstMatchAt(table, ts, false, 0); } else { FirstMatchAt(table, ts, false, 1); }
  }

  // ---- runs, by induction over what recursive descent reads

  /** A run that ends in `target` within `bound` steps. */
  ghost predicate Reaches(caps: bool, st: State, target: State, bound: int) {
    exists n: nat :: n <= bound && Run(caps, st, n) == target
  }

  ghost predicate Fails(caps: bool, st: State, bound: int) {
    exists f :: Reaches(caps, st, Failed(f), bound)
  }

  lemma ReachesSelf(caps: bool, st: State)
    ensures Reaches(caps, st, st, 0)
  {
    assert Run(caps, st, 0) == st;
  }

  lemma ReachesStep(caps: bool, st: State, target: State, bound: int)
    requires Reaches(caps, Step(caps, st), target, bound)
    ensures Reaches(caps, st, target, bound + 1)
  {
    hide Step;
    var n: nat :| n <= bound && Run(caps, Step(caps, st), n) == target;
    assert Run(caps, st, n + 1) == target;
  }

  lemma ReachesThen(caps: bool, st: State, mid: State, target: State, a: int, b: int)
    requires Reaches(caps, st, mid, a) && Reaches(caps, mid, target, b)
    ensures Reaches(caps, st, target, a + b)
  {
    hide Step, Run;
    var m: nat :| m <= a && Run(caps, st, m) == mid;
    var n: nat :| n <= b && Run(caps, mid, n) == target;
    RunAdd(caps, st, m, n);
    assert Run(caps, st, m + n) == target;
  }

  lemma ReachesMore(caps: bool, st: State, target: State, a: int, b: int)
    requires Reaches(caps, st, target, a) && a <= b
    ensures Reaches(caps, st, target, b)
  {
    hide Run;
    var n: nat :| n <= a && Run(caps, st, n) == target;
  }

  /** What a run has to show: a target state where reading and evaluation succeed, else failure. */
  datatype Goal = Land(target: State) | Fail

  ghost predicate Meets(caps: bool, st: State, goal: Goal, bound: int) {
    match goal
    case Land(target) => Reaches(caps, st, target, bound)
    case Fail => Fails(caps, st, bound)
  }

  lemma MeetsStep(caps: bool, st: State, goal: Goal, bound: int)
    requires Meets(caps, Step(caps, st), goal, bound)
    ensures Meets(caps, st, goal, bound + 1)
  {
    hide Step, Reaches;
    if goal.Land? {
      ReachesStep(caps, st, goal.target, bound);
    } else {
      var f :| Reaches(caps, Step(caps, st), Failed(f), bound);
      ReachesStep(caps, st, Failed(f), bound);
    }
  }

  lemma MeetsThen(caps: bool, st: State, mid: State, goal: Goal, a: int, b: int)
    requires Reaches(caps, st, mid, a) && Meets(caps, mid, goal, b)
    ensures Meets(caps, st, goal, a + b)
  {
    hide Reaches;
    if goal.Land? {
      ReachesThen(caps, st, mid, goal.target, a, b);
    } else {
      var f :| Reaches(caps, mid, Failed(f), b);
      ReachesThen(caps, st, mid, Failed(f), a, b);
    }
  }

  lemma MeetsMore(caps: bool, st: State, goal: Goal, a: int, b: int)
    requires Meets(caps, st, goal, a) && a <= b
    ensures Meets(caps, st, goal, b)
  {
    hide Reaches;
    if goal.Land? {
      ReachesMore(caps, st, goal.target, a, b);
    } else {
      var f :| Reaches(caps, st, Failed(f), a);
      ReachesMore(caps, st, Failed(f), a, b);
    }
  }

  lemma MeetsNow(caps: bool, st: State)
    ensures Meets(caps, st, Land(st), 0)
    ensures st.Failed? ==> Meets(caps, st, Fail, 0)
  {
    ReachesSelf(caps, st);
  }

  function ElemGoal(caps: bool, n: nat, ts: seq<Token>, acc: seq<Element>, b: Stack, regs: Registers): (g: Goal) {
    match ParseElem(ts)
    case None => Fail
    case Some((e, rest)) =>
      match EvalElem(caps, n, e, regs)
      case Err(_) => Fail
      case Ok(v) => Land(Running(Rules(SeqFrame(acc + ItemSeq(v.item)), b), rest, v.regs))
  }

  function SeqGoal(caps: bool, n: nat, ts: seq<Token>, acc: seq<Element>, b: Stack, regs: Registers): (g: Goal) {
    match ParseSeq(ts)
    case None => Fail
    case Some((es, rest)) =>
      match EvalSeq(caps, n, es, regs)
      case Err(_) => Fail
      case Ok((els, end)) => Land(Running(Return(b, Elements(acc + els)), rest, end))
  }

  function AltsGoal(caps: bool, n: nat, ts: seq<Token>, acc: seq<Sequence>, b: Stack, regs: Registers): (g: Goal) {
    match ParseAlts(ts)
    case None => Fail
    case Some((trees, rest)) =>
      match EvalAlts(caps, n, trees, regs)
      case Err(_) => Fail
      case Ok((alts, end)) => Land(Running(Return(b, Alternatives(acc + alts)), rest, end))
  }

  /** Steps allowed for what was consumed; for a failure, for all that was left. */
  function Spent(ts: seq<Token>, goal: Goal): (n: int) {
    12 * (|ts| - (if goal.Land? && goal.target.Running? then |goal.target.rest| else 0))
  }

  lemma NoEndAfter(ts: seq<Token>, rest: seq<Token>, prefix: seq<Token>)
    requires ZZ !in ts && ts == prefix + rest
    ensures ZZ !in rest
  {
    assert forall i :: 0 <= i < |rest| ==> rest[i] == ts[|prefix| + i];
  }

  /** An atom that is read and evaluated leaves its value with the rule that pushed it. */
  function AtomGoal(caps: bool, n: nat, ts: seq<Token>, b: Stack, regs: Registers): (g: Goal) {
    match ParseAtom(ts)
    case None => Fail
    case Some((a, rest)) =>
      match EvalAtom(caps, n, a, regs)
      case Err(_) => Fail
      case Ok(v) => Land(Running(Return(b, Child(v.item)), rest, v.regs))
  }

  lemma LeafRuns(caps: bool, n: nat, ts: seq<Token>, b: Stack, regs: Registers)
    requires b.Rules? && (ts == [] || ts[0] != LP)
    ensures var goal := AtomGoal(caps, n, ts, b, regs);
            Meets(caps, Running(Rules(Fresh(Atom), b), ts, regs), goal, 2)
  {
    hide Step, EvalLeaf, Reaches, Fails, Return;
    var st := Running(Rules(Fresh(Atom), b), ts, regs);
    if ts != [] && IsLeaf(ts[0]) {
      AtomOpenStep(caps, b, ts, regs);
      match EvalLeaf(ts[0], regs)
      case Err(f) =>
        MeetsNow(caps, Failed(f));
        MeetsStep(caps, st, Fail, 0);
        MeetsMore(caps, st, Fail, 1, 2);
      case Ok(v) =>
        var mid := Running(Rules(AtomFrame(Child(v.item), Undefined, false, 0), b), ts[1..], v.regs);
        AtomPopStep(caps, AtomFrame(Child(v.item), Undefined, false, 0), b, ts[1..], v.regs);
        MeetsNow(caps, Step(caps, mid));
        MeetsStep(caps, mid, Land(Step(caps, mid)), 0);
        MeetsStep(caps, st, Land(Step(caps, mid)), 1);
    } else {
      AtomFailStep(caps, b, ts, regs);
      MeetsNow(caps, Failed(Syntax));
      MeetsStep(caps, st, Fail, 0);
      MeetsMore(caps, st, Fail, 1, 2);
    }
  }

  lemma {:induction false} ParenRuns(caps: bool, n: nat, ts: seq<Token>, b: Stack, regs: Registers)
    requires ts != [] && ts[0] == LP && ZZ !in ts
    requires b.Rules? && Depth(b) == 4 * n + 5
    ensures var goal := AtomGoal(caps, n, ts, b, regs);
            Meets(caps, Running(Rules(Fresh(Atom), b), ts, regs), goal, Spent(ts, goal) - 6)
    decreases |ts|, 0
  {
    hide Step, Reaches, Fails, Run, ParseAlts, EvalAlts;
    var st := Running(Rules(Fresh(Atom), b), ts, regs);
    var goal := AtomGoal(caps, n, ts, b, regs);
    AtomParenStep(caps, b, ts, regs);
    if caps && MAX_GROUP_DEPTH < Depth(b) {
      MeetsNow(caps, Failed(GroupTooDeep));
      MeetsStep(caps, st, Fail, 0);
      MeetsMore(caps, st, Fail, 1, Spent(ts, Fail) - 6);
      return;
    }
    var atom := AtomFrame(Undefined, Undefined, true, regs.level);
    var inner := Rules(atom, b);
    var first := Running(Rules(Fresh(Alts), inner), ts[1..], Registers(1, 0));
    AltsRuns(caps, n + 1, ts[1..], inner, Registers(1, 0));
    var innerGoal := AltsGoal(caps, n + 1, ts[1..], [], inner, Registers(1, 0));
    if innerGoal.Fail? {
      MeetsStep(caps, st, Fail, 12 * |ts[1..]| + 5);
      MeetsMore(caps, st, Fail, 12 * |ts[1..]| + 6, Spent(ts, Fail) - 6);
      return;
    }
    var (trees, rest) := ParseAlts(ts[1..]).value;
    var (alts, end) := EvalAlts(caps, n + 1, trees, Registers(1, 0)).value;
    assert [] + alts == alts;
    var f := AtomFrame(Undefined, Alternatives(alts), true, regs.level);
    var mid := Running(Rules(f, b), rest, end);
    assert innerGoal.target == mid;
    ParenClose(caps, n, ts, b, regs, trees, rest, alts, end);
    MeetsThen(caps, first, mid, goal, Spent(ts[1..], innerGoal) + 4, 1);
    MeetsStep(caps, st, goal, Spent(ts[1..], innerGoal) + 5);
    MeetsMore(caps, st, goal, Spent(ts[1..], innerGoal) + 6, Spent(ts, goal) - 6);
  }

  lemma ParenClose(caps: bool, n: nat, ts: seq<Token>, b: Stack, regs: Registers,
                   trees: seq<SeqTree>, rest: seq<Token>, alts: seq<Sequence>, end: Registers)
    requires ts != [] && ts[0] == LP && b.Rules?
    requires !(caps && MAX_GROUP_DEPTH < 4 * n + 5)
    requires ParseAlts(ts[1..]) == Some((trees, rest)) && EvalAlts(caps, n + 1, trees, Registers(1, 0)) == Ok((alts, end))
    ensures Meets(caps, Running(Rules(AtomFrame(Undefined, Alternatives(alts), true, regs.level), b), rest, end),
                  AtomGoal(caps, n, ts, b, regs), 1)
  {
    hide Step, Reaches, Fails, ParseAlts, EvalAlts;
    var f := AtomFrame(Undefined, Alternatives(alts), true, regs.level);
    var mid := Running(Rules(f, b), rest, end);
    if rest != [] && rest[0] == RP {
      GroupCloseStep(caps, alts, regs.level, b, rest, end);
    } else {
      AtomPopStep(caps, f, b, rest, end);
    }
    MeetsNow(caps, Step(caps, mid));
    MeetsStep(caps, mid, AtomGoal(caps, n, ts, b, regs), 0);
  }

  lemma {:induction false} ElemRuns(caps: bool, n: nat, ts: seq<Token>, acc: seq<Element>, b: Stack, regs: Registers)
    requires ZZ !in ts && ts != [] && Depth(b) == 4 * n + 3
    ensures var goal := ElemGoal(caps, n, ts, acc, b, regs);
            Meets(caps, Running(Rules(Fresh(Elem), Rules(SeqFrame(acc), b)), ts, regs), goal, Spent(ts, goal) - 1)
    decreases |ts|, 1
  {
    hide Step, Reaches, Fails, Run, ParseAtom, EvalAtom;
    var goal := ElemGoal(caps, n, ts, acc, b, regs);
    var up := Rules(SeqFrame(acc), b);
    var st := Running(Rules(Fresh(Elem), up), ts, regs);
    var holder := Rules(ElemFrame(Undefined), up);
    var first := Running(Rules(Fresh(Atom), holder), ts, regs);
    ElemOpenStep(caps, up, ts, regs);
    var atomGoal := AtomGoal(caps, n, ts, holder, regs);
    var cost := Spent(ts, atomGoal) - 6;
    if ts[0] == LP {
      ParenRuns(caps, n, ts, holder, regs);
    } else {
      LeafRuns(caps, n, ts, holder, regs);
      MeetsMore(caps, first, atomGoal, 2, cost);
    }
    if atomGoal.Fail? {
      MeetsStep(caps, st, Fail, cost);
      MeetsMore(caps, st, Fail, cost + 1, Spent(ts, Fail) - 1);
      return;
    }
    var (atom, rest) := ParseAtom(ts).value;
    var v := EvalAtom(caps, n, atom, regs).value;
    AtomSound(ts);
    NoEndAfter(ts, rest, YieldAtom(atom));
    var mid := Running(Rules(ElemFrame(Child(v.item)), up), rest, v.regs);
    assert atomGoal.target == mid;
    ElemClose(caps, n, ts, acc, b, regs, atom, rest, v);
    MeetsThen(caps, first, mid, goal, cost, 1);
    MeetsStep(caps, st, goal, cost + 1);
    MeetsMore(caps, st, goal, cost + 2, Spent(ts, goal) - 1);
  }

  lemma ElemClose(caps: bool, n: nat, ts: seq<Token>, acc: seq<Element>, b: Stack, regs: Registers,
                  atom: AtomTree, rest: seq<Token>, v: AtomValue)
    requires ParseAtom(ts) == Some((atom, rest)) && EvalAtom(caps, n, atom, regs) == Ok(v) && ZZ !in rest
    ensures Meets(caps, Running(Rules(ElemFrame(Child(v.item)), Rules(SeqFrame(acc), b)), rest, v.regs),
                  ElemGoal(caps, n, ts, acc, b, regs), 1)
  {
    hide Step, Reaches, Fails, ParseAtom, EvalAtom, EvalPost;
    var mid := Running(Rules(ElemFrame(Child(v.item)), Rules(SeqFrame(acc), b)), rest, v.regs);
    ElemCloseStep(caps, v, acc, b, rest);
    MeetsNow(caps, Step(caps, mid));
    MeetsStep(caps, mid, ElemGoal(caps, n, ts, acc, b, regs), 0);
  }

  lemma {:induction false} SeqRuns(caps: bool, n: nat, ts: seq<Token>, f: Frame, acc: seq<Element>, b: Stack, regs: Registers)
    requires ZZ !in ts && b.Rules? && Depth(b) == 4 * n + 3
    requires f == SeqFrame(acc) || (f == Fresh(Seq) && acc == [])
    ensures var goal := SeqGoal(caps, n, ts, acc, b, regs);
            Meets(caps, Running(Rules(f, b), ts, regs), goal, Spent(ts, goal) + 2)
    decreases |ts|, 2, if f.closing then 0 else 1
  {
    hide Step, Reaches, Fails, Run, ParseElem, EvalElem, Boundary, Return;
    var st := Running(Rules(f, b), ts, regs);
    var goal := SeqGoal(caps, n, ts, acc, b, regs);
    SeqStep(caps, f, acc, b, ts, regs);
    assert acc + [] == acc;
    if Boundary(ts) {
      if f.closing {
        MeetsNow(caps, Step(caps, st));
        MeetsStep(caps, st, goal, 0);
        MeetsMore(caps, st, goal, 1, 2);
      } else {
        var again := Running(Rules(SeqFrame([]), b), ts, regs);
        SeqStep(caps, SeqFrame([]), [], b, ts, regs);
        MeetsNow(caps, Step(caps, again));
        MeetsStep(caps, again, goal, 0);
        MeetsStep(caps, st, goal, 1);
      }
      return;
    }
    assert ts != [] by { if ts == [] { BoundaryNil(); } }
    var first := Running(Rules(Fresh(Elem), Rules(SeqFrame(acc), b)), ts, regs);
    ElemRuns(caps, n, ts, acc, b, regs);
    var elemGoal := ElemGoal(caps, n, ts, acc, b, regs);
    if elemGoal.Fail? {
      MeetsStep(caps, st, Fail, Spent(ts, Fail) - 1);
      MeetsMore(caps, st, Fail, Spent(ts, Fail), Spent(ts, Fail) + 2);
      return;
    }
    var (e, mid) := ParseElem(ts).value;
    var v := EvalElem(caps, n, e, regs).value;
    ElemSound(ts);
    NoEndAfter(ts, mid, YieldElem(e));
    var more := acc + ItemSeq(v.item);
    SeqRuns(caps, n, mid, SeqFrame(more), more, b, v.regs);
    SeqGoalStep(caps, n, ts, acc, b, regs, e, mid, v);
    MeetsThen(caps, first, elemGoal.target, goal, Spent(ts, elemGoal) - 1, Spent(mid, goal) + 2);
    MeetsStep(caps, st, goal, Spent(ts, elemGoal) + Spent(mid, goal) + 1);
  }

  lemma BoundaryNil()
    ensures Boundary([])
  {
  }

  lemma SeqGoalStep(caps: bool, n: nat, ts: seq<Token>, acc: seq<Element>, b: Stack, regs: Registers,
                    e: ElemTree, mid: seq<Token>, v: AtomValue)
    requires !Boundary(ts) && ParseElem(ts) == Some((e, mid)) && EvalElem(caps, n, e, regs) == Ok(v)
    ensures SeqGoal(caps, n, ts, acc, b, regs) == SeqGoal(caps, n, mid, acc + ItemSeq(v.item), b, v.regs)
  {
    hide ParseElem, EvalElem, Boundary, Return;
    match ParseSeq(mid)
    case None =>
    case Some((es, rest)) =>
      assert ([e] + es)[1..] == es;
      match EvalSeq(caps, n, es, v.regs)
      case Err(_) =>
      case Ok((els, end)) => Assoc(acc, ItemSeq(v.item), els);
  }

  lemma {:induction false} AltsRuns(caps: bool, n: nat, ts: seq<Token>, b: Stack, regs: Registers)
    requires ZZ !in ts && b.Rules? && Depth(b) == 4 * n + 2
    ensures var goal := AltsGoal(caps, n, ts, [], b, regs);
            Meets(caps, Running(Rules(Fresh(Alts), b), ts, regs), goal, Spent(ts, goal) + if goal.Fail? then 5 else 4)
    decreases |ts|, 4
  {
    hide Step, Reaches, Fails, Run, AltsGoal;
    AltsOpenStep(caps, b, ts, regs);
    AltsLoop(caps, n, ts, [], Undefined, b, regs);
    var goal := AltsGoal(caps, n, ts, [], b, regs);
    var st := Running(Rules(Fresh(Alts), b), ts, regs);
    MeetsStep(caps, st, goal, Spent(ts, goal) + 3);
    MeetsMore(caps, st, goal, Spent(ts, goal) + 4, Spent(ts, goal) + if goal.Fail? then 5 else 4);
  }

  lemma {:induction false} AltsLoop(caps: bool, n: nat, ts: seq<Token>, acc: seq<Sequence>, child: Node, b: Stack, regs: Registers)
    requires ZZ !in ts && b.Rules? && Depth(b) == 4 * n + 2
    ensures var goal := AltsGoal(caps, n, ts, acc, b, regs);
            Meets(caps, Running(Rules(Fresh(Seq), Rules(AltsFrame(acc, child), b)), ts, regs), goal, Spent(ts, goal) + 3)
    decreases |ts|, 3
  {
    hide Step, Reaches, Fails, Run, ParseSeq, EvalSeq;
    var up := Rules(AltsFrame(acc, child), b);
    var st := Running(Rules(Fresh(Seq), up), ts, regs);
    var goal := AltsGoal(caps, n, ts, acc, b, regs);
    SeqRuns(caps, n, ts, Fresh(Seq), [], up, regs);
    var seqGoal := SeqGoal(caps, n, ts, [], up, regs);
    if seqGoal.Fail? {
      AltsGoalFails(caps, n, ts, acc, b, regs);
      MeetsMore(caps, st, Fail, Spent(ts, Fail) + 2, Spent(ts, Fail) + 3);
      return;
    }
    var (es, rest) := ParseSeq(ts).value;
    var (els, end) := EvalSeq(caps, n, es, regs).value;
    assert [] + els == els;
    SeqSound(ts);
    NoEndAfter(ts, rest, YieldSeq(es));
    var mid := Running(Rules(AltsFrame(acc, Elements(els)), b), rest, end);
    assert seqGoal.target == mid;
    AltsCloseStep(caps, acc, els, b, rest, end);
    AltsGoalStep(caps, n, ts, acc, b, regs, es, rest, els, end);
    var more := acc + [Sequence(els)];
    if rest != [] && rest[0] == ALT {
      AltsLoop(caps, n, rest[1..], more, Elements(els), b, end);
      MeetsStep(caps, mid, goal, Spent(rest[1..], goal) + 3);
      MeetsThen(caps, st, mid, goal, Spent(ts, seqGoal) + 2, Spent(rest[1..], goal) + 4);
      MeetsMore(caps, st, goal, Spent(ts, seqGoal) + Spent(rest[1..], goal) + 6, Spent(ts, goal) + 3);
    } else {
      MeetsNow(caps, Step(caps, mid));
      MeetsStep(caps, mid, goal, 0);
      MeetsThen(caps, st, mid, goal, Spent(ts, seqGoal) + 2, 1);
    }
  }

  lemma AltsGoalFails(caps: bool, n: nat, ts: seq<Token>, acc: seq<Sequence>, b: Stack, regs: Registers)
    requires ParseSeq(ts).None? || EvalSeq(caps, n, ParseSeq(ts).value.0, regs).Err?
    ensures AltsGoal(caps, n, ts, acc, b, regs) == Fail
  {
    hide ParseSeq, EvalSeq;
  }

  lemma AltsGoalStep(caps: bool, n: nat, ts: seq<Token>, acc: seq<Sequence>, b: Stack, regs: Registers,
                     es: seq<ElemTree>, rest: seq<Token>, els: seq<Element>, end: Registers)
    requires ParseSeq(ts) == Some((es, rest)) && EvalSeq(caps, n, es, regs) == Ok((els, end))
    ensures var more := acc + [Sequence(els)];
            AltsGoal(caps, n, ts, acc, b, regs) ==
            if rest != [] && rest[0] == ALT then AltsGoal(caps, n, rest[1..], more, b, end)
            else Land(Running(Return(b, Alternatives(more)), rest, end))
  {
    hide ParseSeq, EvalSeq, Return;
    if rest != [] && rest[0] == ALT {
      match ParseAlts(rest[1..])
      case None =>
      case Some((trees, r)) =>
        assert ([SeqTree(es)] + trees)[1..] == trees;
        match EvalAlts(caps, n, trees, end)
        case Err(_) =>
        case Ok((alts, e)) => Assoc(acc, [Sequence(els)], alts);
    } else {
      var one := [SeqTree(es)];
      assert one[1..] == [];
      assert EvalAlts(caps, n, [], end) == Ok(([], end));
      assert [Sequence(els)] + [] == [Sequence(els)];
    }
  }

  // ---- productions, and the whole source

  function GbnfFrame(acc: seq<Production>): (f: Frame) { Frame(Gbnf, true, Prods(acc), Undefined, "", false, 0) }

  function ProdFrame(name: string, child: Node): (f: Frame) { Frame(Prod, true, Undefined, child, name, false, 0) }

  lemma ProdOpenStep(caps: bool, b: Stack, ts: seq<Token>, regs: Registers)
    requires ZZ !in ts
    ensures Step(caps, Running(Rules(Fresh(Prod), b), ts, regs)) ==
            if StartsProduction(ts)
            then Running(Rules(Fresh(Alts), Rules(ProdFrame(ts[0].src, Undefined), b)), ts[2..], regs)
            else Failed(Syntax)
  {
    var table := OpenAlts(Prod);
    MatchesTwo(table[0], ts, false);
    if StartsProduction(ts) { FirstMatchAt(table, ts, false, 0); } else { NoMatch(table, ts, false); }
  }

  lemma ProdCloseStep(caps: bool, name: string, alts: seq<Sequence>, acc: seq<Production>, ts: seq<Token>, regs: Registers)
    requires ZZ !in ts
    ensures var more := acc + [Production(name, alts)];
            Step(caps, Running(Rules(ProdFrame(name, Alternatives(alts)), Rules(GbnfFrame(acc), Bottom)), ts, regs)) ==
            if StartsProduction(ts) then Running(Rules(Fresh(Prod), Rules(GbnfFrame(more), Bottom)), ts, regs)
            else Running(Rules(GbnfFrame(more), Bottom), ts, regs)
  {
    var table := CloseAlts(Prod);
    MatchesTwo(table[0], ts, false);
    assert Drop(ts, 0) == ts;
    if StartsProduction(ts) { FirstMatchAt(table, ts, false, 0); } else { FirstMatchAt(table, ts, false, 1); }
  }

  lemma GbnfCloseStep(caps: bool, acc: seq<Production>, ts: seq<Token>, regs: Registers)
    requires ZZ !in ts
    ensures Step(caps, Running(Rules(GbnfFrame(acc), Bottom), ts, regs)) ==
            if ts == [] then Done(acc) else Failed(Syntax)
  {
    var table := CloseAlts(Gbnf);
    MatchesOne(table[0], ts, false);
    if ts == [] { FirstMatchAt(table, ts, false, 0); } else { NoMatch(table, ts, false); }
  }

  function ProdsGoal(caps: bool, ts: seq<Token>, acc: seq<Production>, regs: Registers): (g: Goal) {
    match ParseProds(ts)
    case None => Fail
    case Some(trees) =>
      match EvalProds(caps, trees, regs)
      case Err(_) => Fail
      case Ok(ps) => Land(Done(acc + ps))
  }

  lemma {:induction false} ProdsRun(caps: bool, ts: seq<Token>, acc: seq<Production>, regs: Registers)
    requires ZZ !in ts && ts != []
    ensures Meets(caps, Running(Rules(Fresh(Prod), Rules(GbnfFrame(acc), Bottom)), ts, regs),
                  ProdsGoal(caps, ts, acc, regs), 12 * |ts| + 1)
    decreases |ts|
  {
    hide Step, Reaches, Fails, Run, ParseAlts, EvalAlts;
    var b := Rules(GbnfFrame(acc), Bottom);
    var st := Running(Rules(Fresh(Prod), b), ts, regs);
    var goal := ProdsGoal(caps, ts, acc, regs);
    ProdOpenStep(caps, b, ts, regs);
    if !StartsProduction(ts) {
      MeetsNow(caps, Failed(Syntax));
      MeetsStep(caps, st, Fail, 0);
      MeetsMore(caps, st, Fail, 1, 12 * |ts| + 1);
      return;
    }
    NoEndAfter(ts, ts[2..], ts[..2]);
    var up := Rules(ProdFrame(ts[0].src, Undefined), b);
    assert Depth(b) == 1 by { assert Depth(Bottom) == 0; }
    assert Depth(up) == 2;
    AltsRuns(caps, 0, ts[2..], up, regs);
    var altsGoal := AltsGoal(caps, 0, ts[2..], [], up, regs);
    if altsGoal.Fail? {
      MeetsStep(caps, st, Fail, 12 * |ts[2..]| + 5);
      MeetsMore(caps, st, Fail, 12 * |ts[2..]| + 6, 12 * |ts| + 1);
      return;
    }
    var (trees, rest) := ParseAlts(ts[2..]).value;
    var (alts, end) := EvalAlts(caps, 0, trees, regs).value;
    assert [] + alts == alts;
    AltsSound(ts[2..]);
    NoEndAfter(ts[2..], rest, YieldAlts(trees));
    var mid := Running(Rules(ProdFrame(ts[0].src, Alternatives(alts)), b), rest, end);
    assert altsGoal.target == mid;
    var spent := Spent(ts[2..], altsGoal) + 4;
    ProdCloseStep(caps, ts[0].src, alts, acc, rest, end);
    ProdsGoalStep(caps, ts, acc, regs, trees, rest, alts, end);
    var more := acc + [Production(ts[0].src, alts)];
    var first := Running(Rules(Fresh(Alts), up), ts[2..], regs);
    if StartsProduction(rest) {
      ProdsRun(caps, rest, more, end);
      MeetsStep(caps, mid, goal, 12 * |rest| + 1);
      MeetsThen(caps, first, mid, goal, spent, 12 * |rest| + 2);
      MeetsStep(caps, st, goal, spent + 12 * |rest| + 2);
      MeetsMore(caps, st, goal, spent + 12 * |rest| + 3, 12 * |ts| + 1);
    } else {
      var last := Running(Rules(GbnfFrame(more), Bottom), rest, end);
      GbnfCloseStep(caps, more, rest, end);
      MeetsNow(caps, Step(caps, last));
      MeetsStep(caps, last, goal, 0);
      MeetsStep(caps, mid, goal, 1);
      MeetsThen(caps, first, mid, goal, spent, 2);
      MeetsStep(caps, st, goal, spent + 2);
      MeetsMore(caps, st, goal, spent + 3, 12 * |ts| + 1);
    }
  }

  lemma ProdsGoalStep(caps: bool, ts: seq<Token>, acc: seq<Production>, regs: Registers,
                      trees: seq<SeqTree>, rest: seq<Token>, alts: seq<Sequence>, end: Registers)
    requires StartsProduction(ts)
    requires ParseAlts(ts[2..]) == Some((trees, rest)) && EvalAlts(caps, 0, trees, regs) == Ok((alts, end))
    ensures var more := acc + [Production(ts[0].src, alts)];
            ProdsGoal(caps, ts, acc, regs) ==
            if StartsProduction(rest) then ProdsGoal(caps, rest, more, end)
            else if rest == [] then Land(Done(more)) else Fail
  {
    hide ParseAlts, EvalAlts;
    var p := Production(ts[0].src, alts);
    if StartsProduction(rest) {
      match ParseProds(rest)
      case None =>
      case Some(ps) =>
        assert ([ProdTree(ts[0].src, trees)] + ps)[1..] == ps;
        match EvalProds(caps, ps, end)
        case Err(_) =>
        case Ok(more) => Assoc(acc, [p], more);
    } else if rest == [] {
      var one := [ProdTree(ts[0].src, trees)];
      assert ParseProds(rest) == Some([]);
      assert one + [] == one && one[1..] == [];
      assert ParseProds(ts) == Some(one);
      assert EvalProds(caps, [], end) == Ok([]);
      assert [p] + [] == [p];
    }
  }

  const ZERO: Registers := Registers(0, 0)

  lemma SourceRuns(caps: bool, ts: seq<Token>)
    requires ZZ !in ts
    ensures Meets(caps, Start(ts), ProdsGoal(caps, ts, [], ZERO), 12 * |ts| + 2)
  {
    hide Step, Reaches, Fails, Run;
    GbnfOpenStep(caps, ts, ZERO);
    if ts == [] {
      GbnfCloseStep(caps, [], [], ZERO);
      assert ParseProds(ts) == Some([]) && EvalProds(caps, [], ZERO) == Ok([]);
      assert ProdsGoal(caps, ts, [], ZERO) == Land(Done([]));
      var st := Running(Rules(GbnfFrame([]), Bottom), [], ZERO);
      MeetsNow(caps, Done([]));
      MeetsStep(caps, st, Land(Done([])), 0);
      MeetsStep(caps, Start(ts), Land(Done([])), 1);
    } else {
      ProdsRun(caps, ts, [], ZERO);
      MeetsStep(caps, Start(ts), ProdsGoal(caps, ts, [], ZERO), 12 * |ts| + 1);
    }
  }

  lemma GbnfOpenStep(caps: bool, ts: seq<Token>, regs: Registers)
    requires ZZ !in ts
    ensures Step(caps, Running(Rules(Fresh(Gbnf), Bottom), ts, regs)) ==
            if ts == [] then Running(Rules(GbnfFrame([]), Bottom), [], regs)
            else Running(Rules(Fresh(Prod), Rules(GbnfFrame([]), Bottom)), ts, regs)
  {
    var table := OpenAlts(Gbnf);
    MatchesOne(table[0], ts, false);
    assert Drop(ts, 0) == ts;
    if ts == [] { FirstMatchAt(table, ts, false, 0); } else { FirstMatchAt(table, ts, false, 1); }
  }

  /** The rule table is exact: on every token sequence it accepts precisely what recursive
      descent reads and evaluation accepts, answers with the evaluated derivation, and settles
      before the engine's step budget runs out. */
  lemma TableExact(caps: bool, ts: seq<Token>, length: nat)
    requires ZZ !in ts && |ts| <= length
    ensures !Run(caps, Start(ts), Budget(length)).Running?
    ensures var r := ParseTokens(caps, ts, length);
            r.Ok? <==> (ParseProds(ts).Some? && EvalProds(caps, ParseProds(ts).value, ZERO).Ok?)
    ensures var r := ParseTokens(caps, ts, length);
            r.Ok? ==> r.value == EvalProds(caps, ParseProds(ts).value, ZERO).value
  {
    hide Step, ParseProds, EvalProds;
    SourceRuns(caps, ts);
    var goal := ProdsGoal(caps, ts, [], ZERO);
    var n: nat;
    var target: State;
    if goal.Land? {
      target := goal.target;
      n :| n <= 12 * |ts| + 2 && Run(caps, Start(ts), n) == target;
      var ps := EvalProds(caps, ParseProds(ts).value, ZERO).value;
      assert [] + ps == ps;
    } else {
      var f :| Reaches(caps, Start(ts), Failed(f), 12 * |ts| + 2);
      target := Failed(f);
      n :| n <= 12 * |ts| + 2 && Run(caps, Start(ts), n) == target;
    }
    RunAdd(caps, Start(ts), n, Budget(length) - n);
    RunSettled(caps, target, Budget(length) - n);
  }
}
