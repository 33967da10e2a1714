/** Derivation trees written out as text, and lexed back: the lexer undoes the spelling of every
    tree whose terminals are spelled as the renderer spells them. */
module Spelled {
  import opened Text
  import opened Ir
  import opened Terminals
  import opened Spelling
  import opened Postfix
  import opened Lexer
  import opened Derivation

  // ---- spelling

  function TokenText(tok: Token): (s: string) {
    match tok
    case GS(src) => src
    case CC(src) => src
    case NM(src) => src
    case POST(src) => src
    case TOK(src) => src
    case DOT => "."
    case DEF => "::="
    case ALT => "|"
    case LP => "("
    case RP => ")"
    case ZZ => ""
  }

  function AtomText(a: AtomTree): (s: string)
    decreases a, 0
  {
    match a
    case Leaf(tok) => TokenText(tok)
    case Paren(alts, _) => "(" + AltsText(alts) + ")"
  }

  function ElemText(e: ElemTree): (s: string)
    decreases e, 1
  {
    AtomText(e.atom) + if e.post.Some? then e.post.value else ""
  }

  /** Elements one space apart. */
  function SeqText(els: seq<ElemTree>): (s: string)
    decreases els, 2
  {
    if els == [] then "" else ElemText(els[0]) + if |els| == 1 then "" else " " + SeqText(els[1..])
  }

  /** Alternatives with a bar between. */
  function AltsText(alts: seq<SeqTree>): (s: string)
    decreases alts, 3
  {
    if alts == [] then ""
    else SeqText(alts[0].els) + if |alts| == 1 then "" else " | " + AltsText(alts[1..])
  }

  /** One production a line. */
  function ProdsText(ps: seq<ProdTree>): (s: string) {
    if ps == [] then "" else ps[0].name + " ::= " + AltsText(ps[0].alts) + "\n" + ProdsText(ps[1..])
  }

  // ---- which trees the renderer spells

  ghost predicate SpeltToken(tok: Token) {
    match tok
    case GS(src) => exists text :: src == QuoteLiteral(text)
    case CC(src) => exists c: Class | AllNamed(c.items) :: src == ClassText(c)
    case NM(src) => LegalName(src)
    case DOT => true
    case _ => false
  }

  /** A run of operators in the renderer's own spelling. */
  predicate SpeltRun(run: string) { Ops(run) != [] && OpsText(Ops(run)) == run }

  ghost predicate SpeltElem(e: ElemTree)
    decreases e, 1
  {
    (match e.atom
     case Leaf(tok) => SpeltToken(tok)
     case Paren(alts, closed) => closed && SpeltAlts(alts)) &&
    (e.post.Some? ==> SpeltRun(e.post.value))
  }

  ghost predicate SpeltSeq(els: seq<ElemTree>)
    decreases els, 2
  {
    els == [] || (SpeltElem(els[0]) && SpeltSeq(els[1..]))
  }

  ghost predicate SpeltAlts(alts: seq<SeqTree>)
    decreases alts, 3
  {
    alts != [] && SpeltSeq(alts[0].els) && (|alts| == 1 || SpeltAlts(alts[1..]))
  }

  ghost predicate SpeltProds(ps: seq<ProdTree>) {
    ps == [] || (LegalName(ps[0].name) && SpeltAlts(ps[0].alts) && SpeltProds(ps[1..]))
  }

  // ---- lexing it back

  /** What may stand after an element. */
  predicate Stop(t: string) {
    t == "" || ((t[0] == ' ' || t[0] == ')' || t[0] == '\n') && NoOpAhead(t))
  }

  /** The first character of an element's text starts no operator and is no space. */
  predicate Head(c: char) { c == '"' || c == '[' || c == '.' || c == '(' || IsWord(c) }

  lemma StopAt(c: char, t: string)
    requires c == ' ' || c == '\n'
    requires t == "" || (!IsSpace(t[0]) && t[0] !in "*+?{")
    ensures Stop([c] + t)
  {
    assert ([c] + t)[1..] == t;
    assert Spaces(t) == 0;
    assert Spaces([c] + t) == 1;
  }

  lemma StopParen(t: string)
    ensures Stop(")" + t)
  {
    assert Spaces(")" + t) == 0;
    assert (")" + t)[0..] == ")" + t;
  }

  lemma TokenHead(tok: Token)
    requires SpeltToken(tok)
    ensures TokenText(tok) != "" && Head(TokenText(tok)[0])
  {
  }

  lemma ElemHead(e: ElemTree)
    requires SpeltElem(e)
    ensures ElemText(e) != "" && Head(ElemText(e)[0])
  {
    hide SpeltToken;
    match e.atom
    case Leaf(tok) => TokenHead(tok);
    case Paren(_, _) =>
  }

  lemma TokenLexes(tok: Token, t: string)
    requires SpeltToken(tok) && (t == "" || !IsWord(t[0]))
    ensures Lex(TokenText(tok) + t) == Prepend([tok], Lex(t))
  {
    hide Lex, QuoteLiteral, ClassText;
    match tok
    case GS(src) =>
      var text :| src == QuoteLiteral(text);
      LexQuoted(text, t);
    case CC(src) =>
      var c: Class :| AllNamed(c.items) && src == ClassText(c);
      LexClass(c, t);
    case NM(src) => LexName(src, t);
    case DOT => LexFixed(".", t, DOT);
  }

  lemma RunLexes(run: string, t: string)
    requires SpeltRun(run) && Stop(t)
    ensures run != "" && !IsWord(run[0]) && Lex(run + t) == Prepend([POST(run)], Lex(t))
  {
    hide Lex, Ops, NoOpAhead;
    if t == "" { NoOpAtEnd(); }
    LexRun(Ops(run), t);
  }

  lemma NoOpAtEnd()
    ensures NoOpAhead("")
  {
  }

  lemma {:induction false} AtomLexes(a: AtomTree, t: string)
    requires match a case Leaf(tok) => SpeltToken(tok) case Paren(alts, closed) => closed && SpeltAlts(alts)
    requires t == "" || !IsWord(t[0])
    ensures Lex(AtomText(a) + t) == Prepend(YieldAtom(a), Lex(t))
    decreases a, 0
  {
    hide Lex, Stop, SpeltAlts, SpeltToken, AltsText, YieldAlts;
    match a
    case Leaf(tok) => TokenLexes(tok, t);
    case Paren(alts, _) =>
      var body, after := AltsText(alts), ")" + t;
      StopParen(t);
      AltsLexes(alts, after);
      LexFixed("(", body + after, LP);
      LexFixed(")", t, RP);
      assert AtomText(a) + t == "(" + (body + after);
      PrependTwice(YieldAlts(alts), [RP], Lex(t));
      PrependTwice([LP], YieldAlts(alts) + [RP], Lex(t));
      Assoc([LP], YieldAlts(alts), [RP]);
  }

  lemma {:induction false} ElemLexes(e: ElemTree, t: string)
    requires SpeltElem(e) && Stop(t)
    ensures Lex(ElemText(e) + t) == Prepend(YieldElem(e), Lex(t))
    decreases e, 1
  {
    hide Lex, NoOpAhead, SpeltAlts, SpeltToken, AtomText, YieldAtom;
    if e.post.Some? {
      var run := e.post.value;
      RunLexes(run, t);
      AtomLexes(e.atom, run + t);
      Assoc(AtomText(e.atom), run, t);
      PrependTwice(YieldAtom(e.atom), [POST(run)], Lex(t));
    } else {
      AtomLexes(e.atom, t);
      assert AtomText(e.atom) + "" == AtomText(e.atom) && YieldAtom(e.atom) + [] == YieldAtom(e.atom);
    }
  }

  lemma {:induction false} SeqLexes(els: seq<ElemTree>, t: string)
    requires SpeltSeq(els) && Stop(t)
    ensures Lex(SeqText(els) + t) == Prepend(YieldSeq(els), Lex(t))
    decreases els, 2
  {
    hide Lex, Stop, ElemText, YieldElem, SpeltElem;
    if els == [] {
      assert "" + t == t;
      PrependNothing(Lex(t));
    } else {
      var head, rest := ElemText(els[0]), els[1..];
      if |els| == 1 {
        ElemLexes(els[0], t);
        assert SeqText(els) == head && YieldSeq(els) == YieldElem(els[0]);
      } else {
        var more := SeqText(rest) + t;
        ElemHead(rest[0]);
        assert more[0] == ElemText(rest[0])[0];
        StopAt(' ', more);
        ElemLexes(els[0], " " + more);
        LexSpace(' ', more);
        assert [' '] + more == " " + more;
        SeqLexes(rest, t);
        assert SeqText(els) + t == head + (" " + more);
        PrependTwice(YieldElem(els[0]), YieldSeq(rest), Lex(t));
      }
    }
  }

  lemma LexBar(t: string)
    ensures Lex(" | " + t) == Prepend([ALT], Lex(t))
  {
    hide Lex;
    LexSpace(' ', "| " + t);
    LexFixed("|", " " + t, ALT);
    LexSpace(' ', t);
    assert " | " + t == [' '] + ("| " + t);
    assert "| " + t == "|" + (" " + t);
    assert " " + t == [' '] + t;
  }

  lemma StopBar(t: string)
    ensures Stop(" | " + t)
  {
    assert " | " + t == [' '] + ("| " + t);
    StopAt(' ', "| " + t);
  }

  lemma {:induction false} AltsLexes(alts: seq<SeqTree>, t: string)
    requires SpeltAlts(alts) && Stop(t)
    ensures Lex(AltsText(alts) + t) == Prepend(YieldAlts(alts), Lex(t))
    decreases alts, 3
  {
    hide Lex, Stop, SeqText, YieldSeq, SpeltSeq;
    var head, rest := SeqText(alts[0].els), alts[1..];
    var front := YieldSeq(alts[0].els);
    if |alts| == 1 {
      SeqLexes(alts[0].els, t);
      assert AltsText(alts) == head && YieldAlts(alts) == front;
    } else {
      var more := AltsText(rest) + t;
      StopBar(more);
      SeqLexes(alts[0].els, " | " + more);
      LexBar(more);
      AltsLexes(rest, t);
      assert AltsText(alts) + t == head + (" | " + more);
      PrependTwice([ALT], YieldAlts(rest), Lex(t));
      PrependTwice(front, [ALT] + YieldAlts(rest), Lex(t));
    }
  }

  lemma LexDef(name: string, t: string)
    requires LegalName(name)
    ensures Lex(name + (" ::= " + t)) == Prepend([NM(name), DEF], Lex(t))
  {
    hide Lex, LegalName;
    LexName(name, " ::= " + t);
    LexSpace(' ', "::= " + t);
    LexFixed("::=", " " + t, DEF);
    LexSpace(' ', t);
    assert " ::= " + t == [' '] + ("::= " + t);
    assert "::= " + t == "::=" + (" " + t);
    assert " " + t == [' '] + t;
    PrependTwice([NM(name)], [DEF], Lex(t));
    assert [NM(name)] + [DEF] == [NM(name), DEF];
  }

  lemma {:induction false} ProdsLexes(ps: seq<ProdTree>)
    requires SpeltProds(ps)
    ensures Lex(ProdsText(ps)) == Some(YieldProds(ps))
    ensures ProdsText(ps) == "" || IsWord(ProdsText(ps)[0])
  {
    hide Lex, Stop, AltsText, YieldAlts, SpeltAlts;
    if ps == [] {
      LexNothing();
    } else {
      var rest := ProdsText(ps[1..]);
      var body := AltsText(ps[0].alts) + ("\n" + rest);
      ProdsLexes(ps[1..]);
      StopAt('\n', rest);
      assert ['\n'] + rest == "\n" + rest;
      LexSpace('\n', rest);
      AltsLexes(ps[0].alts, "\n" + rest);
      LexDef(ps[0].name, body);
      assert ProdsText(ps) == ps[0].name + (" ::= " + body);
      var head, mid := [NM(ps[0].name), DEF], YieldAlts(ps[0].alts);
      Assoc(head, mid, YieldProds(ps[1..]));
    }
  }

  lemma LexNothing()
    ensures Lex("") == Some([])
  {
  }
}
