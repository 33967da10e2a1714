/** The renderer: grammar IR back to GBNF text, or a refusal. `cased` says which characters
    outside ASCII have distinct upper and lower case; the renderer only asks whether they do. */
module Render {
  import opened Text
  import opened Ir
  import opened Terminals
  import opened Spelling
  import opened Postfix

  datatype Form = AtomForm | PostfixForm | SeqForm

  /** A rendered piece of text, and how it composes. */
  datatype Fragment = Fragment(text: string, form: Form)

  datatype RenderError =
    | NoProductions
    | BadName(name: string)
    | DuplicateName(name: string)
    | NoStart(start: string)
    | BadRef(rule: string, name: string)
    | NotAClass(rule: string, pattern: string)
    | NoFold(rule: string, c: char)
    | RepeatsNothing(rule: string)
    | NotGbnf(rule: string)

  function Join(parts: seq<string>, sep: string): (s: string) {
    if parts == [] then "" else if |parts| == 1 then parts[0] else parts[0] + sep + Join(parts[1..], sep)
  }

  // ---- case-insensitive literals

  predicate IsLetter(c: char) { 'a' <= c <= 'z' || 'A' <= c <= 'Z' }

  function LowerCase(c: char): (l: char)
    requires IsLetter(c)
    ensures 'a' <= l <= 'z'
  {
    if 'A' <= c <= 'Z' then (c as int + 32) as char else c
  }

  function UpperCase(c: char): (u: char)
    requires IsLetter(c)
    ensures 'A' <= u <= 'Z'
  {
    if 'a' <= c <= 'z' then (c as int - 32) as char else c
  }

  /** A case-insensitive literal falls into letters and runs of characters without case. */
  datatype Piece = Letter(c: char) | Chunk(text: string)

  function Flush(chunk: string): (ps: seq<Piece>) { if chunk == "" then [] else [Chunk(chunk)] }

  function Pieces(literal: string, chunk: string): (ps: seq<Piece>)
    ensures AllLetters(ps) && forall i :: 0 <= i < |ps| ==> (ps[i].Chunk? ==> ps[i].text != "")
    decreases |literal|
  {
    if literal == "" then Flush(chunk)
    else if IsLetter(literal[0]) then Flush(chunk) + [Letter(literal[0])] + Pieces(literal[1..], "")
    else Pieces(literal[1..], chunk + [literal[0]])
  }

  function PieceText(p: Piece): (s: string)
    requires p.Letter? ==> IsLetter(p.c)
  {
    match p
    case Letter(c) => "[" + [LowerCase(c)] + [UpperCase(c)] + "]"
    case Chunk(text) => QuoteLiteral(text)
  }

  function PieceTexts(ps: seq<Piece>): (ss: seq<string>)
    requires AllLetters(ps)
    ensures |ss| == |ps| && forall i :: 0 <= i < |ps| ==> ss[i] == PieceText(ps[i])
  {
    seq(|ps|, i requires 0 <= i < |ps| => PieceText(ps[i]))
  }

  predicate Folds(cased: char -> bool, c: char) { IsLetter(c) || !cased(c) }

  /** Where a literal first holds a character the renderer cannot fold. */
  function Unfolded(cased: char -> bool, literal: string): (n: nat) {
    RunLength(literal, c => Folds(cased, c))
  }

  function InsensitiveFragments(cased: char -> bool, literal: string, rule: string): (r: Result<seq<string>, RenderError>) {
    var n := Unfolded(cased, literal);
    if n < |literal| then Err(NoFold(rule, literal[n])) else Ok(PieceTexts(Pieces(literal, "")))
  }

  lemma PieceTextsConcat(a: seq<Piece>, b: seq<Piece>)
    requires AllLetters(a) && AllLetters(b)
    ensures PieceTexts(a + b) == PieceTexts(a) + PieceTexts(b)
  {
  }

  /** The fold as it runs: fill a chunk, and flush it before a letter and at the end. */
  method InsensitiveFragmentsLoop(cased: char -> bool, literal: string, rule: string)
    returns (r: Result<seq<string>, RenderError>)
    ensures r == InsensitiveFragments(cased, literal, rule)
  {
    hide QuoteLiteral, PieceTexts;
    var parts: seq<string> := [];
    var chunk := "";
    var i := 0;
    ghost var done: seq<Piece> := [];
    assert literal[0..] == literal;
    while i < |literal|
      invariant i <= |literal|
      invariant Unfolded(cased, literal) == i + Unfolded(cased, literal[i..])
      invariant AllLetters(done) && parts == PieceTexts(done)
      invariant Pieces(literal, "") == done + Pieces(literal[i..], chunk)
    {
      var c := literal[i];
      assert literal[i..][1..] == literal[i + 1..];
      if IsLetter(c) {
        ghost var more := Flush(chunk) + [Letter(c)];
        Assoc(done, more, Pieces(literal[i + 1..], ""));
        AddPieces(done, chunk, Letter(c));
        if chunk != "" { parts := parts + [QuoteLiteral(chunk)]; }
        parts := parts + ["[" + [LowerCase(c)] + [UpperCase(c)] + "]"];
        done := done + more;
        chunk := "";
      } else if cased(c) {
        return Err(NoFold(rule, c));
      } else {
        chunk := chunk + [c];
      }
      i := i + 1;
    }
    assert literal[i..] == "";
    assert Unfolded(cased, literal) == |literal|;
    assert Pieces(literal, "") == done + Flush(chunk);
    AddFlush(done, chunk);
    if chunk != "" { parts := parts + [QuoteLiteral(chunk)]; }
    assert parts == PieceTexts(Pieces(literal, ""));
    r := Ok(parts);
  }

  predicate AllLetters(ps: seq<Piece>) { forall i :: 0 <= i < |ps| ==> (ps[i].Letter? ==> IsLetter(ps[i].c)) }

  lemma AddFlush(done: seq<Piece>, chunk: string)
    requires AllLetters(done)
    ensures AllLetters(done + Flush(chunk))
    ensures PieceTexts(done + Flush(chunk)) == PieceTexts(done) + if chunk == "" then [] else [QuoteLiteral(chunk)]
  {
    PieceTextsConcat(done, Flush(chunk));
  }

  lemma AddPieces(done: seq<Piece>, chunk: string, p: Piece)
    requires AllLetters(done) && (p.Letter? ==> IsLetter(p.c))
    ensures AllLetters(done + (Flush(chunk) + [p]))
    ensures PieceTexts(done + (Flush(chunk) + [p])) ==
            PieceTexts(done) + (if chunk == "" then [] else [QuoteLiteral(chunk)]) + [PieceText(p)]
  {
    AddFlush(done, chunk);
    PieceTextsConcat(done + Flush(chunk), [p]);
    Assoc(done, Flush(chunk), [p]);
  }

  // ---- elements

  function RenderClass(pattern: string, rule: string): (r: Result<Fragment, RenderError>) {
    if pattern == ANY_PATTERN then Ok(Fragment(".", AtomForm))
    else match ReadClassPattern(pattern)
      case None => Err(NotAClass(rule, pattern))
      case Some(c) => Ok(Fragment(ClassText(c), AtomForm))
  }

  function OperatorOf(el: Element): (op: Op)
    requires el.Opt? || el.Star? || el.Plus? || el.Rep?
  {
    match el
    case Opt(_) => OptOp
    case Star(_) => StarOp
    case Plus(_) => PlusOp
    case Rep(min, max, _) => RepOp(min, max)
  }

  /** An element's text. An empty literal denotes nothing, and contributes nothing. */
  function RenderElement(cased: char -> bool, el: Element, rule: string): (r: Result<Option<Fragment>, RenderError>)
    decreases el, 0
  {
    match el
    case Term(literal, caseSensitive) =>
      if literal == "" then Ok(None)
      else if caseSensitive then Ok(Some(Fragment(QuoteLiteral(literal), AtomForm)))
      else (match InsensitiveFragments(cased, literal, rule)
        case Err(e) => Err(e)
        case Ok(parts) =>
          Ok(if parts == [] then None
             else if |parts| == 1 then Some(Fragment(parts[0], AtomForm))
             else Some(Fragment(Join(parts, " "), SeqForm))))
    case Ref(name) =>
      if LegalName(name) then Ok(Some(Fragment(name, AtomForm))) else Err(BadRef(rule, name))
    case Regex(pattern, _) =>
      (match RenderClass(pattern, rule)
       case Err(e) => Err(e)
       case Ok(f) => Ok(Some(f)))
    case Group(alts) =>
      (match RenderAltTexts(cased, alts, rule)
       case Err(e) => Err(e)
       case Ok(texts) => Ok(Some(Fragment("(" + Join(texts, " | ") + ")", AtomForm))))
    case TokTerm(_, _) => Err(NotGbnf(rule))
    case TokenRef(_) => Err(NotGbnf(rule))
    case Prose(_) => Err(NotGbnf(rule))
    case _ =>
      match RenderElement(cased, el.inner, rule)
      case Err(e) => Err(e)
      case Ok(None) => Err(RepeatsNothing(rule))
      case Ok(Some(inner)) =>
        var body := if inner.form.SeqForm? then "(" + inner.text + ")" else inner.text;
        Ok(Some(Fragment(body + OpText(OperatorOf(el)), PostfixForm)))
  }

  /** The texts of a sequence's elements, those that contribute any. */
  function RenderParts(cased: char -> bool, els: seq<Element>, rule: string): (r: Result<seq<string>, RenderError>)
    decreases els, 1
  {
    if els == [] then Ok([])
    else match RenderElement(cased, els[0], rule)
      case Err(e) => Err(e)
      case Ok(frag) =>
        match RenderParts(cased, els[1..], rule)
        case Err(e) => Err(e)
        case Ok(parts) => Ok((if frag.Some? then [frag.value.text] else []) + parts)
  }

  function RenderAltTexts(cased: char -> bool, alts: seq<Sequence>, rule: string): (r: Result<seq<string>, RenderError>)
    decreases alts, 2
  {
    if alts == [] then Ok([])
    else match RenderParts(cased, alts[0].els, rule)
      case Err(e) => Err(e)
      case Ok(parts) =>
        match RenderAltTexts(cased, alts[1..], rule)
        case Err(e) => Err(e)
        case Ok(texts) => Ok([Join(parts, " ")] + texts)
  }

  // ---- grammars

  /** The first name the renderer refuses: not a legal name, or one already seen. */
  function CheckNames(names: seq<string>, seen: set<string>): (r: Option<RenderError>) {
    if names == [] then None
    else if !LegalName(names[0]) then Some(BadName(names[0]))
    else if names[0] in seen then Some(DuplicateName(names[0]))
    else CheckNames(names[1..], seen + {names[0]})
  }

  function Line(name: string, body: string): (s: string) { name + " ::= " + body }

  function RenderLines(cased: char -> bool, ps: seq<Production>): (r: Result<seq<string>, RenderError>) {
    if ps == [] then Ok([])
    else match RenderAltTexts(cased, ps[0].alts, ps[0].name)
      case Err(e) => Err(e)
      case Ok(texts) =>
        match RenderLines(cased, ps[1..])
        case Err(e) => Err(e)
        case Ok(lines) => Ok([Line(ps[0].name, Join(texts, " | "))] + lines)
  }

  /** The production added for a grammar without `root`: a reference to its start rule. */
  function RootLine(ps: seq<Production>, start: Option<string>): (r: Result<seq<string>, RenderError>)
    requires ps != []
  {
    if ROOT in Names(ps) then Ok([])
    else
      var s := if start.Some? then start.value else ps[0].name;
      if s in Names(ps) then Ok([Line(ROOT, s)]) else Err(NoStart(s))
  }

  function RenderGbnf(cased: char -> bool, ps: seq<Production>, start: Option<string>): (r: Result<string, RenderError>) {
    if ps == [] then Err(NoProductions)
    else if CheckNames(Names(ps), {}).Some? then Err(CheckNames(Names(ps), {}).value)
    else match RootLine(ps, start)
      case Err(e) => Err(e)
      case Ok(root) =>
        match RenderLines(cased, ps)
        case Err(e) => Err(e)
        case Ok(lines) => Ok(Join(root + lines, "\n") + "\n")
  }

  /** The renderer as it runs: a set of names seen, then a list of lines. */
  method RenderGbnfLoop(cased: char -> bool, ps: seq<Production>, start: Option<string>)
    returns (r: Result<string, RenderError>)
    ensures r == RenderGbnf(cased, ps, start)
  {
    hide RenderAltTexts, Join, LegalName;
    if ps == [] { return Err(NoProductions); }
    var seen: set<string> := {};
    var i := 0;
    assert Names(ps)[0..] == Names(ps);
    while i < |ps|
      invariant i <= |ps|
      invariant CheckNames(Names(ps), {}) == CheckNames(Names(ps)[i..], seen)
      invariant seen == set k | 0 <= k < i :: ps[k].name
    {
      assert Names(ps)[i..][1..] == Names(ps)[i + 1..];
      if !LegalName(ps[i].name) { return Err(BadName(ps[i].name)); }
      if ps[i].name in seen { return Err(DuplicateName(ps[i].name)); }
      seen := seen + {ps[i].name};
      i := i + 1;
    }
    var lines: seq<string> := [];
    assert ROOT in seen <==> ROOT in Names(ps);
    if ROOT !in seen {
      var s := if start.Some? then start.value else ps[0].name;
      assert s in seen <==> s in Names(ps);
      if s !in seen { return Err(NoStart(s)); }
      lines := [Line(ROOT, s)];
    }
    ghost var root := lines;
    i := 0;
    assert ps[0..] == ps;
    ghost var whole := RenderLines(cased, ps);
    ghost var done: seq<string> := [];
    if whole.Ok? { assert done + whole.value == whole.value; }
    while i < |ps|
      invariant i <= |ps| && lines == root + done
      invariant match RenderLines(cased, ps[i..])
                case Err(e) => whole == Err(e)
                case Ok(more) => whole == Ok(done + more)
    {
      assert ps[i..][1..] == ps[i + 1..];
      var texts := RenderAltTexts(cased, ps[i].alts, ps[i].name);
      if texts.Err? { return Err(texts.error); }
      var line := Line(ps[i].name, Join(texts.value, " | "));
      if RenderLines(cased, ps[i + 1..]).Ok? {
        Assoc(done, [line], RenderLines(cased, ps[i + 1..]).value);
      }
      Assoc(root, done, [line]);
      done := done + [line];
      lines := lines + [line];
      i := i + 1;
    }
    assert RenderLines(cased, ps[i..]) == Ok([]);
    assert done + [] == done;
    r := Ok(Join(lines, "\n") + "\n");
  }

  /** The names a grammar may carry out: legal ones, each once. */
  lemma {:induction false} NamesPass(names: seq<string>, seen: set<string>)
    ensures CheckNames(names, seen).None? <==>
            (forall i :: 0 <= i < |names| ==> LegalName(names[i]) && names[i] !in seen) && Distinct(names)
  {
    hide LegalName;
    if names != [] {
      var head, rest := names[0], names[1..];
      NamesPass(rest, seen + {head});
      assert forall i :: 0 <= i < |rest| ==> rest[i] == names[i + 1];
      if CheckNames(names, seen).None? {
        forall i, j | 0 <= i < j < |names| ensures names[i] != names[j] {
          assert names[j] == rest[j - 1];
          if i > 0 { assert names[i] == rest[i - 1]; }
        }
        forall i | 0 <= i < |names| ensures LegalName(names[i]) && names[i] !in seen {
          if i > 0 { assert names[i] == rest[i - 1]; }
        }
      }
    }
  }
}
