/** The documented grammar of the notation, as derivation trees:

      gbnf = prod*           prod = NM '::=' alts      alts = seq ('|' seq)*
      seq  = elem*           elem = atom POST?         atom = NM | GS | CC | DOT | TOK | '(' alts ')'

    `Paren(alts, false)` is the one form outside it: a parenthesis that is never closed, which
    the rule table also takes where a production ends. */
module Derivation {
  import opened Text
  import opened Lexer

  datatype AtomTree = Leaf(tok: Token) | Paren(alts: seq<SeqTree>, closed: bool)

  datatype ElemTree = ElemTree(atom: AtomTree, post: Option<string>)

  datatype SeqTree = SeqTree(els: seq<ElemTree>)

  datatype ProdTree = ProdTree(name: string, alts: seq<SeqTree>)

  predicate IsLeaf(tok: Token) { tok.GS? || tok.CC? || tok.DOT? || tok.TOK? || tok.NM? }

  // ---- the tokens a tree stands for

  function YieldAtom(a: AtomTree): (ts: seq<Token>)
    decreases a, 0
  {
    match a
    case Leaf(tok) => [tok]
    case Paren(alts, closed) => [LP] + YieldAlts(alts) + (if closed then [RP] else [])
  }

  function YieldPost(post: Option<string>): (ts: seq<Token>) {
    if post.Some? then [POST(post.value)] else []
  }

  function YieldElem(e: ElemTree): (ts: seq<Token>)
    ensures ts != []
    decreases e, 1
  {
    YieldAtom(e.atom) + YieldPost(e.post)
  }

  function YieldSeq(els: seq<ElemTree>): (ts: seq<Token>)
    decreases els, 2
  {
    if els == [] then [] else YieldElem(els[0]) + YieldSeq(els[1..])
  }

  function YieldAlts(alts: seq<SeqTree>): (ts: seq<Token>)
    decreases alts, 3
  {
    if alts == [] then []
    else YieldSeq(alts[0].els) + (if |alts| == 1 then [] else [ALT] + YieldAlts(alts[1..]))
  }

  function YieldProds(ps: seq<ProdTree>): (ts: seq<Token>) {
    if ps == [] then [] else [NM(ps[0].name), DEF] + YieldAlts(ps[0].alts) + YieldProds(ps[1..])
  }

  // ---- which trees are derivations

  /** An unclosed parenthesis may stand only at the end, and only where `tail` allows it. */
  predicate PlacedElem(e: ElemTree, tail: bool)
    decreases e, 0
  {
    match e.atom
    case Leaf(tok) => IsLeaf(tok)
    case Paren(alts, closed) =>
      if closed then PlacedAlts(alts, false) else tail && e.post.None? && PlacedAlts(alts, true)
  }

  predicate PlacedSeq(els: seq<ElemTree>, tail: bool)
    decreases els, 1
  {
    els == [] || (PlacedElem(els[0], tail && |els| == 1) && PlacedSeq(els[1..], tail))
  }

  predicate PlacedAlts(alts: seq<SeqTree>, tail: bool)
    decreases alts, 2
  {
    alts != [] && PlacedSeq(alts[0].els, tail && |alts| == 1) && (|alts| == 1 || PlacedAlts(alts[1..], tail))
  }

  predicate PlacedProds(ps: seq<ProdTree>) {
    ps == [] || (PlacedAlts(ps[0].alts, true) && PlacedProds(ps[1..]))
  }

  /** A derivation of the documented grammar: every parenthesis closed. */
  predicate StrictProds(ps: seq<ProdTree>) {
    ps == [] || (PlacedAlts(ps[0].alts, false) && StrictProds(ps[1..]))
  }

  // ---- reading trees back, by recursive descent with two tokens of lookahead

  predicate StartsProduction(ts: seq<Token>) { |ts| >= 2 && ts[0].NM? && ts[1] == DEF }

  predicate EndsProduction(ts: seq<Token>) { ts == [] || StartsProduction(ts) }

  /** Where a sequence ends. */
  predicate Boundary(ts: seq<Token>) {
    EndsProduction(ts) || ts[0] == ALT || ts[0] == RP
  }

  predicate EndsAlts(ts: seq<Token>) { EndsProduction(ts) || ts[0] == RP }

  type Parsed<T> = Option<(T, seq<Token>)>

  function ParseAtom(ts: seq<Token>): (r: Parsed<AtomTree>)
    ensures r.Some? ==> |r.value.1| < |ts|
    decreases |ts|, 0
  {
    if ts == [] then None
    else if IsLeaf(ts[0]) then Some((Leaf(ts[0]), ts[1..]))
    else if ts[0] != LP then None
    else match ParseAlts(ts[1..])
      case None => None
      case Some((alts, rest)) =>
        if rest != [] && rest[0] == RP then Some((Paren(alts, true), rest[1..]))
        else Some((Paren(alts, false), rest))
  }

  function ParseElem(ts: seq<Token>): (r: Parsed<ElemTree>)
    ensures r.Some? ==> |r.value.1| < |ts|
    decreases |ts|, 1
  {
    match ParseAtom(ts)
    case None => None
    case Some((atom, rest)) =>
      if rest != [] && rest[0].POST? then Some((ElemTree(atom, Some(rest[0].src)), rest[1..]))
      else Some((ElemTree(atom, None), rest))
  }

  function ParseSeq(ts: seq<Token>): (r: Parsed<seq<ElemTree>>)
    ensures r.Some? ==> |r.value.1| <= |ts| && Boundary(r.value.1)
    decreases |ts|, 2
  {
    if Boundary(ts) then Some(([], ts))
    else match ParseElem(ts)
      case None => None
      case Some((e, mid)) =>
        match ParseSeq(mid)
        case None => None
        case Some((es, rest)) => Some(([e] + es, rest))
  }

  function ParseAlts(ts: seq<Token>): (r: Parsed<seq<SeqTree>>)
    ensures r.Some? ==> |r.value.1| <= |ts| && EndsAlts(r.value.1)
    decreases |ts|, 3
  {
    match ParseSeq(ts)
    case None => None
    case Some((es, mid)) =>
      if mid == [] || mid[0] != ALT then Some(([SeqTree(es)], mid))
      else match ParseAlts(mid[1..])
        case None => None
        case Some((alts, rest)) => Some(([SeqTree(es)] + alts, rest))
  }

  function ParseProds(ts: seq<Token>): (r: Option<seq<ProdTree>>)
    decreases |ts|
  {
    if ts == [] then Some([])
    else if !StartsProduction(ts) then None
    else match ParseAlts(ts[2..])
      case None => None
      case Some((alts, rest)) =>
        if rest != [] && !StartsProduction(rest) then None
        else match ParseProds(rest)
          case None => None
          case Some(ps) => Some([ProdTree(ts[0].src, alts)] + ps)
  }

  // ---- soundness: what is read is a derivation of exactly those tokens

  lemma {:induction false} AtomSound(ts: seq<Token>)
    requires ParseAtom(ts).Some?
    ensures var (a, rest) := ParseAtom(ts).value;
            ts == YieldAtom(a) + rest &&
            (a.Leaf? ==> IsLeaf(a.tok)) &&
            (a.Paren? ==> PlacedAlts(a.alts, !a.closed)) &&
            (a.Paren? && !a.closed ==> EndsProduction(rest))
    decreases |ts|, 0
  {
    hide ParseAlts, PlacedAlts, YieldAlts;
    if !IsLeaf(ts[0]) {
      AltsSound(ts[1..]);
      var (alts, rest) := ParseAlts(ts[1..]).value;
      assert ts == [LP] + (YieldAlts(alts) + rest);
      if rest != [] && rest[0] == RP {
        assert rest == [RP] + rest[1..];
        Assoc(YieldAlts(alts), [RP], rest[1..]);
      }
    }
  }

  lemma {:induction false} ElemSound(ts: seq<Token>)
    requires ParseElem(ts).Some?
    ensures var (e, rest) := ParseElem(ts).value;
            ts == YieldElem(e) + rest && PlacedElem(e, EndsProduction(rest))
    decreases |ts|, 1
  {
    AtomSound(ts);
    var (atom, rest) := ParseAtom(ts).value;
    if rest != [] && rest[0].POST? {
      assert rest == [rest[0]] + rest[1..];
    }
  }

  lemma {:induction false} SeqSound(ts: seq<Token>)
    requires ParseSeq(ts).Some?
    ensures var (es, rest) := ParseSeq(ts).value;
            ts == YieldSeq(es) + rest && PlacedSeq(es, EndsProduction(rest))
    decreases |ts|, 2
  {
    if !Boundary(ts) {
      ElemSound(ts);
      var (e, mid) := ParseElem(ts).value;
      SeqSound(mid);
      var (es, rest) := ParseSeq(mid).value;
      assert ([e] + es)[1..] == es;
      Assoc(YieldElem(e), YieldSeq(es), rest);
    }
  }

  lemma {:induction false} AltsSound(ts: seq<Token>)
    requires ParseAlts(ts).Some?
    ensures var (alts, rest) := ParseAlts(ts).value;
            ts == YieldAlts(alts) + rest && PlacedAlts(alts, EndsProduction(rest))
    decreases |ts|, 3
  {
    hide ParseSeq, PlacedSeq, YieldSeq, Boundary;
    SeqSound(ts);
    var (es, mid) := ParseSeq(ts).value;
    if mid != [] && mid[0] == ALT {
      AltsSound(mid[1..]);
      var (alts, rest) := ParseAlts(mid[1..]).value;
      var all := [SeqTree(es)] + alts;
      assert all[1..] == alts;
      assert mid == [ALT] + (YieldAlts(alts) + rest);
    }
  }

  lemma {:induction false} ProdsSound(ts: seq<Token>)
    requires ParseProds(ts).Some?
    ensures ts == YieldProds(ParseProds(ts).value) && PlacedProds(ParseProds(ts).value)
    decreases |ts|
  {
    hide ParseAlts, YieldAlts, PlacedAlts;
    if ts != [] {
      AltsSound(ts[2..]);
      var (alts, rest) := ParseAlts(ts[2..]).value;
      ProdsSound(rest);
      var ps := ParseProds(rest).value;
      var all := [ProdTree(ts[0].src, alts)] + ps;
      assert all[1..] == ps;
      assert ts == [ts[0], DEF] + (YieldAlts(alts) + YieldProds(ps));
    }
  }

  // ---- completeness: every derivation is read back as itself

  /** What may follow an element that carries no operator. */
  predicate Follows(ts: seq<Token>) { ts == [] || (ts[0] != DEF && !ts[0].POST?) }

  lemma YieldElemHead(e: ElemTree)
    requires PlacedElem(e, true)
    ensures IsLeaf(YieldElem(e)[0]) || YieldElem(e)[0] == LP
  {
  }

  lemma {:induction false} PlacedElemMore(e: ElemTree, tail: bool)
    requires PlacedElem(e, tail)
    ensures PlacedElem(e, true)
  {
  }

  lemma {:induction false} SeqFollows(els: seq<ElemTree>, rest: seq<Token>, tail: bool)
    requires PlacedSeq(els, tail) && Boundary(rest)
    ensures Follows(YieldSeq(els) + rest)
  {
    if els == [] {
      assert YieldSeq(els) + rest == rest;
    } else {
      PlacedElemMore(els[0], tail && |els| == 1);
      YieldElemHead(els[0]);
      assert (YieldSeq(els) + rest)[0] == YieldElem(els[0])[0];
    }
  }

  lemma {:induction false} AtomComplete(a: AtomTree, rest: seq<Token>)
    requires a.Leaf? ==> IsLeaf(a.tok)
    requires a.Paren? ==> PlacedAlts(a.alts, !a.closed)
    requires a.Paren? && !a.closed ==> EndsProduction(rest)
    ensures ParseAtom(YieldAtom(a) + rest) == Some((a, rest))
    decreases a, 0
  {
    hide ParseAlts, PlacedAlts, YieldAlts, ParseAtom;
    match a
    case Leaf(tok) =>
      assert YieldAtom(a) + rest == [tok] + rest;
      LeafParsed(tok, rest);
    case Paren(alts, closed) =>
      if closed {
        var after := [RP] + rest;
        assert !EndsProduction(after) && EndsAlts(after) && after[1..] == rest;
        AltsComplete(alts, after);
        ParenParsed(YieldAlts(alts) + after, alts, after);
        assert YieldAtom(a) + rest == [LP] + (YieldAlts(alts) + after);
      } else {
        AltsComplete(alts, rest);
        ParenParsed(YieldAlts(alts) + rest, alts, rest);
        assert YieldAtom(a) + rest == [LP] + (YieldAlts(alts) + rest);
      }
  }

  lemma LeafParsed(tok: Token, rest: seq<Token>)
    requires IsLeaf(tok)
    ensures ParseAtom([tok] + rest) == Some((Leaf(tok), rest))
  {
    assert ([tok] + rest)[1..] == rest;
  }

  lemma ParenParsed(inner: seq<Token>, alts: seq<SeqTree>, after: seq<Token>)
    requires ParseAlts(inner) == Some((alts, after)) && (EndsProduction(after) || after[0] == RP)
    ensures ParseAtom([LP] + inner) ==
            if after != [] && after[0] == RP then Some((Paren(alts, true), after[1..])) else Some((Paren(alts, false), after))
  {
    hide ParseAlts;
    assert ([LP] + inner)[1..] == inner;
  }

  lemma {:induction false} ElemComplete(e: ElemTree, rest: seq<Token>)
    requires PlacedElem(e, EndsProduction(rest)) && (e.post.None? ==> Follows(rest))
    ensures ParseElem(YieldElem(e) + rest) == Some((e, rest))
    decreases e, 1
  {
    hide ParseAtom, PlacedAlts, YieldAtom, EndsProduction;
    var after := YieldPost(e.post) + rest;
    assert e.post.None? ==> after == rest;
    assert YieldElem(e) + rest == YieldAtom(e.atom) + after;
    AtomComplete(e.atom, after);
    assert e.post.Some? ==> after[1..] == rest;
  }

  lemma {:induction false} SeqComplete(els: seq<ElemTree>, rest: seq<Token>)
    requires PlacedSeq(els, EndsProduction(rest)) && Boundary(rest)
    ensures ParseSeq(YieldSeq(els) + rest) == Some((els, rest))
    decreases els, 2
  {
    hide YieldElem, ParseElem, PlacedElem;
    if els == [] {
      assert YieldSeq(els) + rest == rest;
    } else {
      var e, mid := els[0], YieldSeq(els[1..]) + rest;
      var ts := YieldSeq(els) + rest;
      assert ts == YieldElem(e) + mid;
      SeqFollows(els[1..], rest, EndsProduction(rest));
      if |els| == 1 { assert mid == rest; }
      PlacedAnywhere(e, |els| == 1 && EndsProduction(rest), EndsProduction(mid));
      ElemComplete(e, mid);
      NotBoundary(e, mid);
      SeqComplete(els[1..], rest);
      assert els == [e] + els[1..];
    }
  }

  lemma PlacedAnywhere(e: ElemTree, tail: bool, more: bool)
    requires PlacedElem(e, tail) && (tail ==> more)
    ensures PlacedElem(e, more)
  {
  }

  /** The two-token boundary is exact: an element is never taken for the start of a production. */
  lemma NotBoundary(e: ElemTree, mid: seq<Token>)
    requires PlacedElem(e, true) || PlacedElem(e, false)
    requires Follows(mid)
    ensures !Boundary(YieldElem(e) + mid)
  {
    hide YieldAlts, PlacedAlts;
    var ts, post := YieldElem(e) + mid, YieldPost(e.post);
    if e.atom.Leaf? {
      assert ts == [e.atom.tok] + (post + mid);
      if e.post.Some? {
        assert post + mid == [POST(e.post.value)] + mid;
      } else {
        assert post + mid == mid;
      }
    } else {
      assert YieldAtom(e.atom)[0] == LP && ts[0] == YieldAtom(e.atom)[0];
    }
  }

  lemma {:induction false} OneAlternative(els: seq<ElemTree>, rest: seq<Token>)
    requires PlacedSeq(els, EndsProduction(rest)) && EndsAlts(rest)
    ensures ParseAlts(YieldSeq(els) + rest) == Some(([SeqTree(els)], rest))
    decreases els, 3
  {
    hide ParseSeq, PlacedSeq, YieldSeq, YieldAlts;
    SeqComplete(els, rest);
  }

  lemma {:induction false} AfterBar(els: seq<ElemTree>, body: seq<Token>, alts: seq<SeqTree>, rest: seq<Token>)
    requires PlacedSeq(els, false) && ParseAlts(body) == Some((alts, rest))
    ensures ParseAlts(YieldSeq(els) + ([ALT] + body)) == Some(([SeqTree(els)] + alts, rest))
    decreases els, 3
  {
    hide ParseSeq, PlacedSeq, YieldSeq, YieldAlts;
    var more := [ALT] + body;
    assert more[0] == ALT && more[1..] == body && !EndsProduction(more);
    SeqComplete(els, more);
  }

  lemma {:induction false} AltsComplete(alts: seq<SeqTree>, rest: seq<Token>)
    requires PlacedAlts(alts, EndsProduction(rest)) && EndsAlts(rest)
    ensures ParseAlts(YieldAlts(alts) + rest) == Some((alts, rest))
    decreases alts, 3
  {
    hide ParseAlts, PlacedSeq, YieldSeq, EndsProduction, EndsAlts;
    var els, head := alts[0].els, YieldSeq(alts[0].els);
    if |alts| > 1 {
      var body := YieldAlts(alts[1..]) + rest;
      AltsComplete(alts[1..], rest);
      AfterBar(els, body, alts[1..], rest);
      assert YieldAlts(alts) + rest == head + ([ALT] + body);
      assert [SeqTree(els)] + alts[1..] == alts;
    } else {
      OneAlternative(els, rest);
      assert YieldAlts(alts) + rest == head + rest;
      assert [SeqTree(els)] == alts;
    }
  }

  lemma {:induction false} ProdsComplete(ps: seq<ProdTree>)
    requires PlacedProds(ps)
    ensures ParseProds(YieldProds(ps)) == Some(ps)
  {
    if ps != [] {
      var rest := YieldProds(ps[1..]);
      var ts := YieldProds(ps);
      assert ts[2..] == YieldAlts(ps[0].alts) + rest;
      if ps[1..] != [] { assert rest[0].NM? && rest[1] == DEF; }
      AltsComplete(ps[0].alts, rest);
      ProdsComplete(ps[1..]);
      assert ps == [ps[0]] + ps[1..];
      assert ps[0] == ProdTree(ts[0].src, ps[0].alts);
    }
  }

  /** A token sequence has at most one derivation. */
  lemma Unambiguous(ps: seq<ProdTree>, qs: seq<ProdTree>)
    requires PlacedProds(ps) && PlacedProds(qs) && YieldProds(ps) == YieldProds(qs)
    ensures ps == qs
  {
    ProdsComplete(ps);
    ProdsComplete(qs);
  }

  /** The reader is exact: it answers with the derivation of its input, where there is one. */
  lemma ReaderExact(ts: seq<Token>, ps: seq<ProdTree>)
    ensures ParseProds(ts) == Some(ps) <==> (PlacedProds(ps) && YieldProds(ps) == ts)
  {
    if ParseProds(ts) == Some(ps) { ProdsSound(ts); }
    if PlacedProds(ps) && YieldProds(ps) == ts { ProdsComplete(ps); }
  }

  // ---- the documented grammar is what is read with as many `)` as `(`

  /** Opening less closing parentheses. */
  function Excess(ts: seq<Token>): (n: int) {
    if ts == [] then 0
    else (if ts[0] == LP then 1 else if ts[0] == RP then -1 else 0) + Excess(ts[1..])
  }

  lemma {:induction false} ExcessConcat(a: seq<Token>, b: seq<Token>)
    ensures Excess(a + b) == Excess(a) + Excess(b)
  {
    if a == [] {
      assert a + b == b;
    } else {
      assert (a + b)[1..] == a[1..] + b;
      ExcessConcat(a[1..], b);
    }
  }

  lemma {:induction false} ElemExcess(e: ElemTree, tail: bool)
    requires PlacedElem(e, tail)
    ensures Excess(YieldElem(e)) >= 0
    ensures Excess(YieldElem(e)) == 0 <==> PlacedElem(e, false)
    decreases e, 1
  {
    ExcessConcat(YieldAtom(e.atom), YieldPost(e.post));
    match e.atom
    case Leaf(_) =>
    case Paren(alts, closed) =>
      var close := if closed then [RP] else [];
      ExcessConcat([LP] + YieldAlts(alts), close);
      ExcessConcat([LP], YieldAlts(alts));
      AltsExcess(alts, !closed);
  }

  lemma {:induction false} SeqExcess(els: seq<ElemTree>, tail: bool)
    requires PlacedSeq(els, tail)
    ensures Excess(YieldSeq(els)) >= 0
    ensures Excess(YieldSeq(els)) == 0 <==> PlacedSeq(els, false)
    decreases els, 2
  {
    if els != [] {
      ExcessConcat(YieldElem(els[0]), YieldSeq(els[1..]));
      ElemExcess(els[0], tail && |els| == 1);
      SeqExcess(els[1..], tail);
    }
  }

  lemma {:induction false} AltsExcess(alts: seq<SeqTree>, tail: bool)
    requires PlacedAlts(alts, tail)
    ensures Excess(YieldAlts(alts)) >= 0
    ensures Excess(YieldAlts(alts)) == 0 <==> PlacedAlts(alts, false)
    decreases alts, 3
  {
    var more := if |alts| == 1 then [] else [ALT] + YieldAlts(alts[1..]);
    ExcessConcat(YieldSeq(alts[0].els), more);
    SeqExcess(alts[0].els, tail && |alts| == 1);
    if |alts| > 1 {
      ExcessConcat([ALT], YieldAlts(alts[1..]));
      AltsExcess(alts[1..], tail);
    }
  }

  lemma {:induction false} ProdsExcess(ps: seq<ProdTree>)
    requires PlacedProds(ps)
    ensures Excess(YieldProds(ps)) >= 0
    ensures Excess(YieldProds(ps)) == 0 <==> StrictProds(ps)
  {
    if ps != [] {
      var head := [NM(ps[0].name), DEF];
      assert Excess(head) == 0 by { assert head[1..] == [DEF]; assert [DEF][1..] == []; }
      ExcessConcat(head + YieldAlts(ps[0].alts), YieldProds(ps[1..]));
      ExcessConcat(head, YieldAlts(ps[0].alts));
      AltsExcess(ps[0].alts, true);
      ProdsExcess(ps[1..]);
    }
  }

  lemma {:induction false} StrictPlaced(ps: seq<ProdTree>)
    requires StrictProds(ps)
    ensures PlacedProds(ps)
  {
    if ps != [] {
      AltsMore(ps[0].alts);
      StrictPlaced(ps[1..]);
    }
  }

  lemma {:induction false} AltsMore(alts: seq<SeqTree>)
    requires PlacedAlts(alts, false)
    ensures PlacedAlts(alts, true)
    decreases alts, 3
  {
    if |alts| > 1 { AltsMore(alts[1..]); } else { SeqMore(alts[0].els); }
  }

  lemma {:induction false} SeqMore(els: seq<ElemTree>)
    requires PlacedSeq(els, false)
    ensures PlacedSeq(els, true)
  {
    if els != [] {
      PlacedElemMore(els[0], false);
      SeqMore(els[1..]);
    }
  }

  /** A token sequence is in the documented grammar exactly when it is read and its parentheses
      balance in number; and then what is read is its derivation. */
  lemma DocumentedGrammar(ts: seq<Token>)
    ensures (exists ps :: StrictProds(ps) && YieldProds(ps) == ts) <==> (ParseProds(ts).Some? && Excess(ts) == 0)
  {
    if exists ps :: StrictProds(ps) && YieldProds(ps) == ts {
      var ps :| StrictProds(ps) && YieldProds(ps) == ts;
      StrictPlaced(ps);
      ProdsComplete(ps);
      ProdsExcess(ps);
    }
    if ParseProds(ts).Some? && Excess(ts) == 0 {
      ProdsSound(ts);
      ProdsExcess(ParseProds(ts).value);
    }
  }
}
