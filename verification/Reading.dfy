/** What the text of any grammar is read as: the plan of every rendered grammar is a closed
    derivation, and it has a value exactly when no class text and no count in it is refused. */
module Reading {
  import opened Text
  import opened Ir
  import opened Terminals
  import opened Spelling
  import opened Postfix
  import opened Lexer
  import opened Derivation
  import opened Table
  import opened TableProof
  import opened Build
  import opened Render
  import opened Spelled
  import opened Validate
  import opened FrontEnd
  import opened Plan

  // ---- what is read

  function PieceElement(p: Piece): (el: Element)
    requires p.Letter? ==> IsLetter(p.c)
  {
    match p
    case Chunk(text) => Term(text, true)
    case Letter(c) => Regex(EmitClass(LetterClass(c)), "")
  }

  /** A letter in either case. */
  function LetterClass(c: char): (cl: Class)
    requires IsLetter(c)
    ensures ScalarClass(cl) && FlagsFor(cl) == ""
  {
    Class(false, [One(LowerCase(c) as int), One(UpperCase(c) as int)])
  }

  function PieceElements(ps: seq<Piece>): (els: seq<Element>)
    requires AllLetters(ps)
    ensures |els| == |ps| && forall i :: 0 <= i < |ps| ==> els[i] == PieceElement(ps[i])
  {
    seq(|ps|, i requires 0 <= i < |ps| => PieceElement(ps[i]))
  }

  /** Several elements under one operator come back as a group. */
  function Whole(els: seq<Element>): (el: Element) {
    if |els| == 1 then els[0] else Group([Sequence(els)])
  }

  /** The elements an element is read as: none for an empty literal, several for a folded one. */
  function ReadOf(el: Element): (els: seq<Element>)
    decreases el, 0
  {
    match el
    case Term(literal, caseSensitive) =>
      if literal == "" then [] else if caseSensitive then [el] else PieceElements(Pieces(literal, ""))
    case Ref(_) => [el]
    case Regex(pattern, _) => [if pattern == ANY_PATTERN then Regex(ANY_PATTERN, "u") else ReadRegex(el)]
    case Group(alts) => [Group(ReadAlts(alts))]
    case TokTerm(_, _) => [el]
    case TokenRef(_) => [el]
    case Prose(_) => [el]
    case _ =>
      match ApplyOp(Whole(ReadOf(el.inner)), OperatorOf(el))
      case None => [el]
      case Some(e) => [e]
  }

  /** The text of a class, decoded: a class of characters is read as itself, its equal ends
      collapsed, but a surrogate has no text, and a number past Unicode has one that is refused. */
  function Decoded(pattern: string): (r: Option<Class>) {
    match ReadClassPattern(pattern)
    case None => None
    case Some(c) => DecodeClass(ClassText(c))
  }

  function ReadRegex(el: Element): (r: Element) {
    if !el.Regex? then el
    else match Decoded(el.pattern)
      case None => el
      case Some(c) => Regex(EmitClass(c), FlagsFor(c))
  }

  function ReadSeq(els: seq<Element>): (r: seq<Element>)
    decreases els, 1
  {
    if els == [] then [] else ReadOf(els[0]) + ReadSeq(els[1..])
  }

  /** No alternatives are read as one empty alternative. */
  function ReadAlts(alts: seq<Sequence>): (r: seq<Sequence>)
    decreases alts, 2
  {
    if alts == [] then [Sequence([])]
    else [Sequence(ReadSeq(alts[0].els))] + if |alts| == 1 then [] else ReadAlts(alts[1..])
  }

  function ReadProds(ps: seq<Production>): (r: seq<Production>)
    ensures |r| == |ps| && Names(r) == Names(ps)
  {
    if ps == [] then [] else [Production(ps[0].name, ReadAlts(ps[0].alts))] + ReadProds(ps[1..])
  }

  /** Rendered, but to text that is refused: bounds that cross, or a class text that lists nothing,
      a range that descends, or a number past Unicode. */
  predicate Illegible(el: Element) {
    || (el.Rep? && Below(el.max, el.min))
    || (el.Regex? && el.pattern != ANY_PATTERN && ReadClassPattern(el.pattern).Some? && Decoded(el.pattern).None?)
  }

  // ---- the plan is spelled as the renderer spells, and its value is what is read

  /** The plan of an element: closed, spelled, and built into `els`, one element each. */
  ghost predicate Worth(plan: seq<ElemTree>, els: seq<Element>) {
    SpeltSeq(plan) && PlacedSeq(plan, false) && BuildSeq(plan) == Some(els) && |els| == |plan|
  }

  lemma {:induction false} WorthConcat(a: seq<ElemTree>, x: seq<Element>, b: seq<ElemTree>, y: seq<Element>)
    requires Worth(a, x) && Worth(b, y)
    ensures Worth(a + b, x + y)
  {
    hide SpeltElem, PlacedElem, BuildElem;
    if a == [] {
      assert a + b == b && x + y == y;
    } else {
      assert (a + b)[1..] == a[1..] + b;
      var item := BuildElem(a[0]).value;
      var rest := BuildSeq(a[1..]).value;
      assert x == ItemSeq(item) + rest;
      ItemsAtMost(a[1..], rest);
      WorthConcat(a[1..], rest, b, y);
      Assoc(ItemSeq(item), rest, y);
    }
  }

  lemma {:induction false} ItemsAtMost(a: seq<ElemTree>, x: seq<Element>)
    requires BuildSeq(a) == Some(x)
    ensures |x| <= |a|
  {
    if a != [] { ItemsAtMost(a[1..], BuildSeq(a[1..]).value); }
  }

  lemma WorthOne(e: ElemTree, el: Element)
    requires SpeltElem(e) && PlacedElem(e, false) && BuildElem(e) == Some(Some(el))
    ensures Worth([e], [el])
  {
    hide SpeltElem, PlacedElem, BuildElem;
    var one := [e];
    assert one[0] == e && one[1..] == [];
    assert BuildSeq([]) == Some([]) && SpeltSeq([]) && PlacedSeq([], false);
    assert BuildSeq(one) == Prepend(ItemSeq(Some(el)), BuildSeq([]));
    assert ItemSeq(Some(el)) + [] == [el];
    assert SpeltSeq(one) && PlacedSeq(one, false);
  }

  lemma WorthOneInv(plan: seq<ElemTree>, els: seq<Element>)
    requires Worth(plan, els) && |plan| == 1
    ensures SpeltElem(plan[0]) && PlacedElem(plan[0], false) && BuildElem(plan[0]) == Some(Some(els[0]))
  {
    hide SpeltElem, PlacedElem, BuildElem;
    assert plan[1..] == [];
    assert BuildSeq([]) == Some([]);
    var item := BuildElem(plan[0]).value;
    assert ItemSeq(item) + [] == ItemSeq(item);
  }

  lemma LiteralWorth(text: string)
    requires text != ""
    ensures Worth([Bare(GS(QuoteLiteral(text)))], [Term(text, true)])
  {
    hide QuoteLiteral;
    DecodeQuoted(text);
    WorthOne(Bare(GS(QuoteLiteral(text))), Term(text, true));
  }

  lemma ClassWorth(c: Class)
    requires AllNamed(c.items) && DecodeClass(ClassText(c)).Some?
    ensures var d := DecodeClass(ClassText(c)).value; Worth([Bare(CC(ClassText(c)))], [Regex(EmitClass(d), FlagsFor(d))])
  {
    hide ClassText, EmitClass, FlagsFor, DecodeClass;
    var d := DecodeClass(ClassText(c)).value;
    WorthOne(Bare(CC(ClassText(c))), Regex(EmitClass(d), FlagsFor(d)));
  }

  lemma LetterText(c: char)
    requires IsLetter(c)
    ensures ClassText(LetterClass(c)) == PieceText(Letter(c)) && TightClass(LetterClass(c)) == LetterClass(c)
  {
    var cl := LetterClass(c);
    var a, b := ItemText(cl.items[0]), ItemText(cl.items[1]);
    var tail := cl.items[1..];
    assert tail == [cl.items[1]] && tail[1..] == [];
    assert ItemsText(tail) == b + ItemsText(tail[1..]) && ItemsText([]) == "";
    assert ItemsText(cl.items) == a + ItemsText(tail);
    assert a == [LowerCase(c)] && b == [UpperCase(c)];
    assert "[" + "" + (a + (b + "")) + "]" == "[" + a + b + "]";
  }

  lemma PieceWorth(p: Piece)
    requires if p.Letter? then IsLetter(p.c) else p.text != ""
    ensures Worth([PieceTree(p)], [PieceElement(p)])
  {
    hide Worth, PieceText, EmitClass, ClassText, LetterClass, DecodeClass;
    if p.Chunk? {
      LiteralWorth(p.text);
      ChunkText(p.text);
    } else {
      LetterText(p.c);
      RenderedClassDecodes(LetterClass(p.c));
      ClassWorth(LetterClass(p.c));
    }
  }

  lemma {:induction false} PiecesWorth(ps: seq<Piece>)
    requires AllLetters(ps) && forall i :: 0 <= i < |ps| ==> (ps[i].Chunk? ==> ps[i].text != "")
    ensures Worth(PieceTrees(ps), PieceElements(ps))
  {
    if ps == [] {
      WorthNone();
    } else {
      hide Worth, PieceTree, PieceElement, PieceTrees, PieceElements;
      var p, rest := ps[0], ps[1..];
      PiecesWorth(rest);
      PieceWorth(p);
      PieceHead(ps);
      WorthConcat([PieceTree(p)], [PieceElement(p)], PieceTrees(rest), PieceElements(rest));
    }
  }

  lemma PieceHead(ps: seq<Piece>)
    requires AllLetters(ps) && ps != []
    ensures PieceTrees(ps) == [PieceTree(ps[0])] + PieceTrees(ps[1..])
    ensures PieceElements(ps) == [PieceElement(ps[0])] + PieceElements(ps[1..])
  {
    hide PieceTree, PieceElement;
  }

  lemma WorthNone()
    ensures Worth([], [])
  {
  }

  lemma ChunkText(text: string)
    ensures PieceText(Chunk(text)) == QuoteLiteral(text)
  {
  }

  lemma {:induction false} LowerAppend(item: Element, ops: seq<Op>, op: Op)
    ensures Lower(item, ops + [op]) ==
            match Lower(item, ops) case None => None case Some(mid) => ApplyOp(mid, op)
    decreases |ops|
  {
    var all := ops + [op];
    if ops == [] {
      assert all[1..] == [] && all[0] == op;
    } else {
      assert all[1..] == ops[1..] + [op];
      if ApplyOp(item, ops[0]).Some? { LowerAppend(ApplyOp(item, ops[0]).value, ops[1..], op); }
    }
  }

  lemma RunAppend(run: string, op: Op)
    requires run == "" || SpeltRun(run)
    ensures Ops(run + OpText(op)) == Ops(run) + [op] && SpeltRun(run + OpText(op))
  {
    var ops := Ops(run);
    if run == "" { assert ops == [] && OpsText(ops) == ""; }
    OpsTextAppend(ops, op);
    OpsOfText(ops + [op]);
  }

  lemma LoneWorth(e: ElemTree, el: Element, op: Op)
    requires SpeltElem(e) && PlacedElem(e, false) && BuildElem(e) == Some(Some(el))
    requires ApplyOp(el, op).Some?
    ensures Worth([PostTree([e], op)], [ApplyOp(el, op).value])
  {
    hide OpText, SpeltRun, BuildAtom, SpeltAlts, PlacedAlts, Ops, ApplyOp;
    var run := if e.post.Some? then e.post.value else "";
    var t := PostTree([e], op);
    var item := BuildAtom(e.atom).value.value;
    RunAppend(run, op);
    if run == "" { NoOps(); }
    if e.post.None? { assert Lower(item, []) == Some(item); }
    LowerAppend(item, Ops(run), op);
    WorthOne(t, ApplyOp(el, op).value);
  }

  lemma NoOps()
    ensures Ops("") == []
  {
  }

  lemma GroupWorth(alts: seq<SeqTree>, inner: seq<Sequence>)
    requires SpeltAlts(alts) && PlacedAlts(alts, false) && BuildAlts(alts) == Some(inner)
    ensures var e := ElemTree(Paren(alts, true), None);
            SpeltElem(e) && PlacedElem(e, false) && BuildElem(e) == Some(Some(Group(inner)))
  {
    hide SpeltAlts, PlacedAlts, BuildAlts;
  }

  lemma SeqAsAlts(plan: seq<ElemTree>, els: seq<Element>)
    requires Worth(plan, els)
    ensures var alts := [SeqTree(plan)];
            SpeltAlts(alts) && PlacedAlts(alts, false) && BuildAlts(alts) == Some([Sequence(els)])
  {
    hide SpeltSeq, PlacedSeq, BuildSeq;
    var alts := [SeqTree(plan)];
    assert alts[1..] == [];
    assert BuildAlts([]) == Some([]);
    assert [Sequence(els)] + [] == [Sequence(els)];
  }

  lemma PostWorth(plan: seq<ElemTree>, els: seq<Element>, op: Op)
    requires Worth(plan, els) && plan != [] && ApplyOp(Whole(els), op).Some?
    ensures Worth([PostTree(plan, op)], [ApplyOp(Whole(els), op).value])
  {
    hide Worth, ApplyOp, SpeltElem, PlacedElem, BuildElem;
    if |plan| == 1 {
      WorthOneInv(plan, els);
      WorthLength(plan, els);
      assert plan == [plan[0]];
      LoneWorth(plan[0], els[0], op);
    } else {
      SeqAsAlts(plan, els);
      WorthLength(plan, els);
      var group := ElemTree(Paren([SeqTree(plan)], true), None);
      GroupWorth([SeqTree(plan)], [Sequence(els)]);
      LoneWorth(group, Whole(els), op);
      assert "" + OpText(op) == OpText(op);
      assert PostTree([group], op) == PostTree(plan, op);
    }
  }

  lemma WorthLength(plan: seq<ElemTree>, els: seq<Element>)
    requires Worth(plan, els)
    ensures |plan| == |els|
  {
  }

  lemma RefWorth(name: string)
    requires LegalName(name)
    ensures Worth([Bare(NM(name))], [Ref(name)])
  {
    WorthOne(Bare(NM(name)), Ref(name));
  }

  lemma AnyWorth()
    ensures Worth([Bare(DOT)], [Regex(ANY_PATTERN, "u")])
  {
    WorthOne(Bare(DOT), Regex(ANY_PATTERN, "u"));
  }

  // ---- text that is refused

  /** The plan of an element whose text is refused: closed and spelled, but without a value. */
  ghost predicate Unread(plan: seq<ElemTree>) {
    SpeltSeq(plan) && PlacedSeq(plan, false) && BuildSeq(plan).None?
  }

  /** What the plan of a rendered element comes to. */
  ghost predicate Reads(plan: seq<ElemTree>, legible: bool, els: seq<Element>) {
    if legible then Worth(plan, els) else Unread(plan)
  }

  lemma {:induction false} UnreadConcat(a: seq<ElemTree>, b: seq<ElemTree>)
    requires SpeltSeq(a) && PlacedSeq(a, false) && SpeltSeq(b) && PlacedSeq(b, false)
    requires BuildSeq(a).None? || BuildSeq(b).None?
    ensures Unread(a + b)
  {
    hide SpeltElem, PlacedElem, BuildElem;
    if a == [] {
      assert a + b == b;
      assert BuildSeq(a) == Some([]);
    } else {
      assert (a + b)[1..] == a[1..] + b;
      if BuildSeq(a[1..]).None? || BuildSeq(b).None? {
        UnreadConcat(a[1..], b);
      } else {
        ClosedConcat(a[1..], b);
      }
    }
  }

  lemma {:induction false} ClosedConcat(a: seq<ElemTree>, b: seq<ElemTree>)
    requires SpeltSeq(a) && PlacedSeq(a, false) && SpeltSeq(b) && PlacedSeq(b, false)
    ensures SpeltSeq(a + b) && PlacedSeq(a + b, false)
  {
    hide SpeltElem, PlacedElem;
    if a == [] {
      assert a + b == b;
    } else {
      assert (a + b)[1..] == a[1..] + b;
      ClosedConcat(a[1..], b);
    }
  }

  lemma UnreadOne(e: ElemTree)
    requires SpeltElem(e) && PlacedElem(e, false) && BuildElem(e).None?
    ensures Unread([e])
  {
    hide SpeltElem, PlacedElem, BuildElem;
    var one := [e];
    assert one[0] == e && one[1..] == [];
    assert SpeltSeq([]) && PlacedSeq([], false);
  }

  lemma UnreadOneInv(plan: seq<ElemTree>)
    requires Unread(plan) && |plan| == 1
    ensures SpeltElem(plan[0]) && PlacedElem(plan[0], false) && BuildElem(plan[0]).None?
  {
    hide SpeltElem, PlacedElem, BuildElem;
    assert plan[1..] == [] && BuildSeq([]) == Some([]);
  }

  /** An operator after text that is refused, or one whose bounds cross. */
  lemma LoneUnread(e: ElemTree, op: Op)
    requires SpeltElem(e) && PlacedElem(e, false)
    requires BuildElem(e).None? || (BuildElem(e).value.Some? && ApplyOp(BuildElem(e).value.value, op).None?)
    ensures Unread([PostTree([e], op)])
  {
    hide OpText, SpeltRun, BuildAtom, SpeltAlts, PlacedAlts, Ops, ApplyOp, Lower;
    var run := if e.post.Some? then e.post.value else "";
    RunAppend(run, op);
    if run == "" { NoOps(); }
    if BuildAtom(e.atom).Some? && BuildAtom(e.atom).value.Some? {
      var item := BuildAtom(e.atom).value.value;
      LowerNothing(item);
      LowerAppend(item, Ops(run), op);
    }
    UnreadOne(PostTree([e], op));
  }

  lemma LowerNothing(item: Element)
    ensures Lower(item, []) == Some(item)
  {
  }

  lemma GroupUnread(alts: seq<SeqTree>)
    requires SpeltAlts(alts) && PlacedAlts(alts, false) && BuildAlts(alts).None?
    ensures var e := ElemTree(Paren(alts, true), None); SpeltElem(e) && PlacedElem(e, false) && BuildElem(e).None?
  {
    hide SpeltAlts, PlacedAlts, BuildAlts;
  }

  lemma SeqUnread(plan: seq<ElemTree>)
    requires Unread(plan)
    ensures var alts := [SeqTree(plan)]; SpeltAlts(alts) && PlacedAlts(alts, false) && BuildAlts(alts).None?
  {
    hide SpeltSeq, PlacedSeq, BuildSeq;
  }

  lemma PostUnread(plan: seq<ElemTree>, op: Op)
    requires Unread(plan) && plan != []
    ensures Unread([PostTree(plan, op)])
  {
    hide Unread, SpeltElem, PlacedElem, BuildElem, ApplyOp;
    if |plan| == 1 {
      UnreadOneInv(plan);
      assert plan == [plan[0]];
      LoneUnread(plan[0], op);
    } else {
      SeqUnread(plan);
      GroupUnread([SeqTree(plan)]);
      LoneUnread(ElemTree(Paren([SeqTree(plan)], true), None), op);
      PostOfGroup(plan, op);
    }
  }

  lemma PostOfGroup(plan: seq<ElemTree>, op: Op)
    requires |plan| != 1
    ensures PostTree([ElemTree(Paren([SeqTree(plan)], true), None)], op) == PostTree(plan, op)
  {
    hide OpText;
    assert "" + OpText(op) == OpText(op);
  }

  lemma CrossedUnread(plan: seq<ElemTree>, els: seq<Element>, op: Op)
    requires Worth(plan, els) && plan != [] && ApplyOp(Whole(els), op).None?
    ensures Unread([PostTree(plan, op)])
  {
    hide Worth, Unread, SpeltElem, PlacedElem, BuildElem, ApplyOp;
    if |plan| == 1 {
      WorthOneInv(plan, els);
      WorthLength(plan, els);
      assert plan == [plan[0]];
      LoneUnread(plan[0], op);
    } else {
      SeqAsAlts(plan, els);
      WorthLength(plan, els);
      GroupWorth([SeqTree(plan)], [Sequence(els)]);
      LoneUnread(ElemTree(Paren([SeqTree(plan)], true), None), op);
      PostOfGroup(plan, op);
    }
  }

  // ---- every rendered grammar

  lemma OperatorApplies(el: Element, whole: Element)
    requires el.Opt? || el.Star? || el.Plus? || el.Rep?
    ensures ApplyOp(whole, OperatorOf(el)).Some? <==> !Illegible(el)
  {
  }

  lemma PostReads(plan: seq<ElemTree>, legible: bool, el: Element)
    requires (el.Opt? || el.Star? || el.Plus? || el.Rep?) && plan != []
    requires Reads(plan, legible, ReadOf(el.inner))
    ensures Reads([PostTree(plan, OperatorOf(el))], legible && !Illegible(el), ReadOf(el))
  {
    hide Worth, Unread, PostTree, ApplyOp, Illegible;
    var whole := Whole(ReadOf(el.inner));
    OperatorApplies(el, whole);
    if !legible { PostUnread(plan, OperatorOf(el)); }
    else if Illegible(el) { CrossedUnread(plan, ReadOf(el.inner), OperatorOf(el)); }
    else { PostWorth(plan, ReadOf(el.inner), OperatorOf(el)); }
  }

  lemma ClassReads(pattern: string, flags: string)
    requires pattern != ANY_PATTERN && ReadClassPattern(pattern).Some?
    ensures var el := Regex(pattern, flags);
            Reads([Bare(CC(ClassText(ReadClassPattern(pattern).value)))], !Illegible(el), [ReadRegex(el)])
  {
    hide Worth, ReadClassPattern, ClassText, EmitClass, FlagsFor, DecodeClass;
    var c := ReadClassPattern(pattern).value;
    if DecodeClass(ClassText(c)).Some? {
      ClassWorth(c);
    } else {
      UnreadOne(Bare(CC(ClassText(c))));
    }
  }

  lemma {:induction false} ElementReads(cased: char -> bool, el: Element, rule: string)
    requires RenderElement(cased, el, rule).Ok?
    ensures Reads(PlanOf(el), Find(el, Illegible).None?, ReadOf(el))
    decreases el, 0
  {
    hide Worth, Unread, ReadClassPattern, QuoteLiteral, ClassText, EmitClass, FlagsFor, ApplyOp, PostTree, Decoded, Illegible;
    LeavesLegible(el);
    match el
    case Term(literal, caseSensitive) =>
      if literal == "" { WorthNone(); }
      else if caseSensitive { LiteralWorth(literal); }
      else { PiecesWorth(Pieces(literal, "")); }
    case Ref(name) => RefWorth(name);
    case Regex(pattern, flags) =>
      if pattern == ANY_PATTERN { AnyWorth(); } else { ClassReads(pattern, flags); }
    case Group(alts) =>
      AltsRead(cased, alts, rule);
      GroupReads(alts);
    case TokTerm(_, _) =>
    case TokenRef(_) =>
    case Prose(_) =>
    case _ =>
      ElementReads(cased, el.inner, rule);
      ElementSpells(cased, el.inner, rule);
      PostReads(PlanOf(el.inner), Find(el.inner, Illegible).None?, el);
  }

  lemma LeavesLegible(el: Element)
    ensures !el.Rep? && !(el.Regex? && el.pattern != ANY_PATTERN) ==> !Illegible(el)
  {
  }

  ghost predicate AltsReads(alts: seq<Sequence>) {
    SpeltAlts(PlanAlts(alts)) && PlacedAlts(PlanAlts(alts), false) &&
    BuildAlts(PlanAlts(alts)) == if FindAlts(alts, Illegible).None? then Some(ReadAlts(alts)) else None
  }

  lemma GroupReads(alts: seq<Sequence>)
    requires AltsReads(alts)
    ensures Reads([ElemTree(Paren(PlanAlts(alts), true), None)], FindAlts(alts, Illegible).None?, [Group(ReadAlts(alts))])
  {
    hide SpeltAlts, PlacedAlts, BuildAlts, PlanAlts, ReadAlts, FindAlts, Worth, Unread, SpeltElem, PlacedElem, BuildElem;
    var e := ElemTree(Paren(PlanAlts(alts), true), None);
    if FindAlts(alts, Illegible).None? {
      GroupWorth(PlanAlts(alts), ReadAlts(alts));
      WorthOne(e, Group(ReadAlts(alts)));
    } else {
      GroupUnread(PlanAlts(alts));
      UnreadOne(e);
    }
  }

  lemma {:induction false} PartsRead(cased: char -> bool, els: seq<Element>, rule: string)
    requires RenderParts(cased, els, rule).Ok?
    ensures Reads(PlanSeq(els), FindSeq(els, Illegible).None?, ReadSeq(els))
    decreases els, 1
  {
    hide Worth, Unread, RenderElement, PlanOf, ReadOf, Illegible, Find;
    if els == [] {
      WorthNone();
    } else {
      ElementReads(cased, els[0], rule);
      PartsRead(cased, els[1..], rule);
      BothRead(PlanOf(els[0]), Find(els[0], Illegible).None?, ReadOf(els[0]),
        PlanSeq(els[1..]), FindSeq(els[1..], Illegible).None?, ReadSeq(els[1..]));
    }
  }

  lemma BothRead(a: seq<ElemTree>, p: bool, x: seq<Element>, b: seq<ElemTree>, q: bool, y: seq<Element>)
    requires Reads(a, p, x) && Reads(b, q, y)
    ensures Reads(a + b, p && q, x + y)
  {
    hide SpeltSeq, PlacedSeq, BuildSeq;
    if p && q { WorthConcat(a, x, b, y); } else { UnreadConcat(a, b); }
  }

  lemma NoAlts()
    ensures SpeltAlts([SeqTree([])]) && PlacedAlts([SeqTree([])], false)
    ensures BuildAlts([SeqTree([])]) == Some([Sequence([])])
  {
    WorthNone();
    SeqAsAlts([], []);
  }

  lemma {:induction false} AltsRead(cased: char -> bool, alts: seq<Sequence>, rule: string)
    requires RenderAltTexts(cased, alts, rule).Ok?
    ensures AltsReads(alts)
    decreases alts, 2
  {
    hide RenderParts, PlanSeq, ReadSeq, FindSeq, SpeltSeq, PlacedSeq, BuildSeq, Illegible;
    assert BuildAlts([]) == Some([]);
    if alts == [] {
      NoAlts();
      assert FindAlts(alts, Illegible).None?;
    } else {
      PartsRead(cased, alts[0].els, rule);
      if |alts| > 1 {
        AltsRead(cased, alts[1..], rule);
        assert PlanAlts(alts)[1..] == PlanAlts(alts[1..]);
      } else {
        assert alts[1..] == [] && PlanAlts(alts)[1..] == [];
        assert FindAlts([], Illegible).None?;
      }
    }
  }

  lemma {:induction false} ProdsRead(cased: char -> bool, ps: seq<Production>)
    requires RenderLines(cased, ps).Ok?
    requires forall i :: 0 <= i < |ps| ==> LegalName(ps[i].name)
    ensures var trees := PlanProds(ps);
            SpeltProds(trees) && StrictProds(trees) &&
            BuildProds(trees) == if FindProds(ps, Illegible).None? then Some(ReadProds(ps)) else None
  {
    hide RenderAltTexts, PlanAlts, ReadAlts, FindAlts, SpeltAlts, PlacedAlts, BuildAlts, LegalName, Illegible;
    if ps != [] {
      AltsRead(cased, ps[0].alts, ps[0].name);
      ProdsRead(cased, ps[1..]);
      assert PlanProds(ps)[1..] == PlanProds(ps[1..]);
    }
  }

  // ---- reading a spelled plan

  /** The text of a spelled derivation parses to its value. */
  lemma SpelledParses(trees: seq<ProdTree>, v: seq<Production>)
    requires SpeltProds(trees) && StrictProds(trees) && BuildProds(trees) == Some(v)
    ensures Lex(ProdsText(trees)) == Some(YieldProds(trees))
    ensures ParseTokens(false, YieldProds(trees), |ProdsText(trees)|) == Ok(v)
  {
    hide Lex, ParseTokens, SpeltProds, BuildProds, YieldProds, ProdsText, PlacedProds, StrictProds;
    ProdsLexes(trees);
    StrictPlaced(trees);
    TableBuilds(false, YieldProds(trees), |ProdsText(trees)|, v);
  }

  /** The text of a spelled derivation without a value is refused. */
  lemma SpelledRefused(caps: bool, trees: seq<ProdTree>)
    requires SpeltProds(trees) && StrictProds(trees) && BuildProds(trees).None?
    ensures Lex(ProdsText(trees)) == Some(YieldProds(trees))
    ensures ParseTokens(caps, YieldProds(trees), |ProdsText(trees)|).Err?
  {
    hide Lex, ParseTokens, SpeltProds, BuildProds, YieldProds, ProdsText, PlacedProds, StrictProds;
    ProdsLexes(trees);
    StrictPlaced(trees);
    var r := ParseTokens(caps, YieldProds(trees), |ProdsText(trees)|);
    if r.Ok? {
      TableBuilds(caps, YieldProds(trees), |ProdsText(trees)|, r.value);
      var ps :| PlacedProds(ps) && YieldProds(ps) == YieldProds(trees) && BuildProds(ps) == Some(r.value);
      Unambiguous(ps, trees);
    }
  }
}
