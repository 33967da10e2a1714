/** What a source is made of, said without a lexer: gaps and token texts, one after another. The
    lexer answers exactly with the tokens of such a cut. */
module Segments {
  import opened Text
  import opened Ir
  import opened Terminals
  import opened Spelling
  import opened Postfix
  import opened Lexer

  // ---- the shapes

  /** The characters of a rule name: `[A-Za-z0-9_-]`. */
  predicate NameCharacter(c: char) {
    'A' <= c <= 'Z' || 'a' <= c <= 'z' || '0' <= c <= '9' || c == '_' || c == '-'
  }

  /** An opening delimiter, a body in which a backslash takes the next character with it, and the
      first closing delimiter that no backslash takes. */
  predicate Enclosed(x: string, open: string, close: char) {
    |open| < |x| && x[..|open|] == open && x[|x| - 1] == close && Balanced(x[|open|..|x| - 1], close)
  }

  ghost predicate Spells(tok: Token, x: string) {
    match tok
    case GS(src) => src == x && Enclosed(x, "\"", '"')
    case CC(src) => src == x && Enclosed(x, "[", ']')
    case TOK(src) => src == x && (Enclosed(x, "<", '>') || Enclosed(x, "!<", '>'))
    case NM(src) => src == x && x != "" && forall i :: 0 <= i < |x| ==> NameCharacter(x[i])
    case POST(src) => src == x && exists ops :: RunDenotes(x, ops)
    case DEF => x == "::="
    case ALT => x == "|"
    case LP => x == "("
    case RP => x == ")"
    case DOT => x == "."
    case ZZ => false
  }

  ghost predicate IsToken(x: string) { exists tok :: Spells(tok, x) }

  /** No longer text from here is a token's. */
  ghost predicate Greatest(x: string, rest: string) {
    forall n :: |x| < n <= |x + rest| ==> !IsToken((x + rest)[..n])
  }

  /** White space, or a comment: `#` up to the end of its line, the line break left. */
  predicate IsGap(x: string, rest: string) {
    || (|x| == 1 && x[0] in [' ', '\t', '\r', '\n'])
    || (x != "" && x[0] == '#' && (forall i :: 0 <= i < |x| ==> x[i] !in ['\r', '\n'])
        && (rest == "" || rest[0] in ['\r', '\n']))
  }

  datatype Segment = Gap(text: string) | Word(tok: Token, text: string)

  function SourceOf(ss: seq<Segment>): (s: string) { if ss == [] then "" else ss[0].text + SourceOf(ss[1..]) }

  function TokensOf(ss: seq<Segment>): (ts: seq<Token>) {
    if ss == [] then [] else (if ss[0].Word? then [ss[0].tok] else []) + TokensOf(ss[1..])
  }

  /** Every segment is a gap, or a token's text at its greatest extent. */
  ghost predicate Cut(ss: seq<Segment>) {
    ss == [] ||
    (Cut(ss[1..]) &&
     match ss[0]
     case Gap(x) => IsGap(x, SourceOf(ss[1..]))
     case Word(tok, x) => Spells(tok, x) && Greatest(x, SourceOf(ss[1..])))
  }

  // ---- gaps

  lemma GapExact(t: string, n: nat)
    ensures n > 0 && Skipped(t) == n <==> 0 < n <= |t| && IsGap(t[..n], t[n..])
  {
    hide RunLength;
    if t != "" && t[0] == '#' {
      var m := RunLength(t[1..], InComment);
      if Skipped(t) == n { assert forall i :: 0 < i < n ==> t[..n][i] == t[1..][i - 1]; }
      if 0 < n <= |t| && IsGap(t[..n], t[n..]) {
        assert t[..n][0] == t[0];
        assert forall i :: 0 < i < n ==> t[1..n][i - 1] == t[..n][i];
        RunLengthIs(t[1..n], t[n..], InComment);
        assert t[1..] == t[1..n] + t[n..];
      }
    } else if t != "" && 0 < n <= |t| {
      assert t[..n][0] == t[0];
    }
  }

  // ---- delimited tokens

  lemma {:induction false} CloseTaken(t: string, close: char)
    requires CloseOf(t, close).Some? && close != '\\'
    ensures Balanced(t[..CloseOf(t, close).value], close)
    decreases |t|
  {
    hide CloseOf, Balanced;
    CloseNothing(close);
    CloseStep(t, close);
    var k := CloseOf(t, close).value;
    if t[0] == close {
      assert t[..0] == "";
    } else {
      var skip := if t[0] == '\\' then 2 else 1;
      CloseTaken(t[skip..], close);
      assert t[..k][skip..] == t[skip..][..k - skip];
      BalancedStep(t[..k], close);
    }
  }

  lemma CloseNothing(close: char)
    ensures CloseOf("", close).None? && Balanced("", close)
  {
  }

  lemma BalancedStep(b: string, close: char)
    requires b != ""
    ensures Balanced(b, close) <==>
            if b[0] == '\\' then |b| >= 2 && Balanced(b[2..], close) else b[0] != close && Balanced(b[1..], close)
  {
  }

  /** The delimiter that closes is the first that no backslash takes. */
  lemma CloseExact(t: string, close: char, k: nat)
    requires close != '\\'
    ensures CloseOf(t, close) == Some(k) <==> k < |t| && t[k] == close && Balanced(t[..k], close)
  {
    hide CloseOf, Balanced;
    if CloseOf(t, close) == Some(k) { CloseTaken(t, close); CloseWithin(t, close); }
    if k < |t| && t[k] == close && Balanced(t[..k], close) {
      CloseOfBalanced(t[..k], close, t[k + 1..]);
      assert t == t[..k] + ([close] + t[k + 1..]);
    }
  }

  lemma CloseWithin(t: string, close: char)
    requires CloseOf(t, close).Some?
    ensures CloseOf(t, close).value < |t| && t[CloseOf(t, close).value] == close
  {
    hide CloseOf;
  }

  lemma DelimitedExact(t: string, open: string, close: char, n: nat)
    requires |open| <= |t| && t[..|open|] == open && close != '\\'
    ensures Delimited(t, |open|, close) == Some(n) <==> n <= |t| && Enclosed(t[..n], open, close)
  {
    hide CloseOf, Balanced;
    var o := |open|;
    if o < n <= |t| {
      CloseExact(t[o..], close, n - o - 1);
      assert t[o..][..n - o - 1] == t[..n][o..n - 1] && t[..n][..o] == open;
    }
    if Delimited(t, o, close) == Some(n) { CloseWithin(t[o..], close); }
  }

  // ---- what the first character says

  /** Where a token starts, its first character says which matcher it is for. */
  lemma SpellsFirst(tok: Token, x: string)
    requires Spells(tok, x)
    ensures x != "" && x[0] !in [' ', '\t', '\r', '\n', '#']
    ensures match tok
            case GS(_) => x[0] == '"'
            case CC(_) => x[0] == '['
            case TOK(_) => x[0] == '<' || (|x| > 1 && x[0] == '!' && x[1] == '<')
            case NM(_) => IsWord(x[0])
            case POST(_) => x[0] in "*+?{"
            case DEF => x == "::="
            case ALT => x == "|"
            case LP => x == "("
            case RP => x == ")"
            case DOT => x == "."
            case ZZ => false
  {
    hide Balanced, RunDenotes;
    match tok
    case POST(_) =>
      var ops :| RunDenotes(x, ops);
      RunFirst(x, ops);
    case GS(_) => assert x[0] == x[..1][0];
    case CC(_) => assert x[0] == x[..1][0];
    case TOK(_) =>
      if Enclosed(x, "<", '>') { assert x[0] == x[..1][0]; }
      else { assert x[0] == x[..2][0] && x[1] == x[..2][1]; }
    case _ =>
  }

  // ---- the lexer is exact, a token at a time

  lemma TokenTaken(t: string)
    requires Skipped(t) == 0 && LexToken(t).Some?
    ensures var (tok, n) := LexToken(t).value; n <= |t| && Spells(tok, t[..n])
  {
    hide RunExtent, Delimited, RunLength, Enclosed, RunDenotes;
    var (tok, n) := LexToken(t).value;
    assert |t| >= 1 && t[..1] == [t[0]];
    match tok
    case GS(_) => DelimitedExact(t, "\"", '"', n);
    case CC(_) => DelimitedExact(t, "[", ']', n);
    case TOK(_) =>
      if t[0] == '!' { assert t[..2] == "!<"; DelimitedExact(t, "!<", '>', n); } else { DelimitedExact(t, "<", '>', n); }
    case POST(_) => var ops := RunTaken(t);
    case NM(_) => NameTaken(t);
    case _ =>
  }

  lemma NameTaken(t: string)
    requires t != "" && IsWord(t[0])
    ensures var n := RunLength(t, IsWord); 0 < n <= |t| && forall i :: 0 <= i < n ==> NameCharacter(t[..n][i])
  {
    var n := RunLength(t, IsWord);
    assert forall i :: 0 <= i < n ==> t[..n][i] == t[i];
  }

  /** Where a token's text stands, the lexer takes a token, and no shorter text. */
  lemma TokenLongest(t: string, tok: Token, m: nat)
    requires m <= |t| && Spells(tok, t[..m])
    ensures Skipped(t) == 0 && LexToken(t).Some?
    ensures var (took, n) := LexToken(t).value; m <= n && (m == n ==> took == tok)
  {
    hide RunExtent, Delimited, RunLength, Enclosed, RunDenotes, Skipped;
    SpellsFirst(tok, t[..m]);
    assert t[..m][0] == t[0] && t[..1] == [t[0]];
    NothingSkipped(t);
    match tok
    case GS(_) => DelimitedExact(t, "\"", '"', m);
    case CC(_) => DelimitedExact(t, "[", ']', m);
    case TOK(_) =>
      EnclosedFirst(t, m, tok);
      if t[0] == '!' { assert t[..2] == "!<"; DelimitedExact(t, "!<", '>', m); } else { DelimitedExact(t, "<", '>', m); }
    case POST(_) =>
      var ops :| RunDenotes(t[..m], ops);
      RunLongest(t, m, ops);
    case NM(_) => NameLongest(t, m);
    case _ =>
  }

  lemma NothingSkipped(t: string)
    requires t != "" && t[0] !in [' ', '\t', '\r', '\n', '#']
    ensures Skipped(t) == 0
  {
  }

  lemma EnclosedFirst(t: string, m: nat, tok: Token)
    requires m <= |t| && tok.TOK? && Spells(tok, t[..m])
    ensures |t| > 1 && (t[0] == '!' ==> t[1] == '<' && Enclosed(t[..m], "!<", '>'))
    ensures t[0] != '!' ==> t[0] == '<' && Enclosed(t[..m], "<", '>')
  {
    hide Balanced;
    if Enclosed(t[..m], "<", '>') { assert t[..m][..1][0] == t[0]; }
    if Enclosed(t[..m], "!<", '>') { assert t[..m][..2][0] == t[0] && t[..m][..2][1] == t[1]; }
  }

  lemma NameLongest(t: string, m: nat)
    requires 0 < m <= |t| && forall i :: 0 <= i < m ==> NameCharacter(t[..m][i])
    ensures IsWord(t[0]) && m <= RunLength(t, IsWord)
  {
    hide RunLength;
    forall i | 0 <= i < m ensures IsWord(t[i]) { assert t[..m][i] == t[i]; }
  }

  /** The lexer takes exactly the token whose text stands here at its greatest extent. */
  lemma TokenExact(t: string, tok: Token, n: nat)
    ensures Skipped(t) == 0 && LexToken(t) == Some((tok, n)) <==>
            n <= |t| && Spells(tok, t[..n]) && Greatest(t[..n], t[n..])
  {
    hide LexToken, Skipped, Spells;
    if n <= |t| { assert t[..n] + t[n..] == t; }
    if Skipped(t) == 0 && LexToken(t) == Some((tok, n)) {
      TokenTaken(t);
      forall m | n < m <= |t| ensures !IsToken(t[..m]) {
        if IsToken(t[..m]) {
          var other :| Spells(other, t[..m]);
          TokenLongest(t, other, m);
        }
      }
    }
    if n <= |t| && Spells(tok, t[..n]) && Greatest(t[..n], t[n..]) {
      TokenLongest(t, tok, n);
      TokenTaken(t);
      var (took, m) := LexToken(t).value;
      assert IsToken(t[..m]);
    }
  }

  // ---- and on whole sources

  lemma {:induction false} CutLexes(ss: seq<Segment>)
    requires Cut(ss)
    ensures Lex(SourceOf(ss)) == Some(TokensOf(ss))
  {
    hide LexToken, Skipped, Spells, Greatest, IsGap;
    if ss != [] {
      var x, rest := ss[0].text, SourceOf(ss[1..]);
      var s := x + rest;
      CutLexes(ss[1..]);
      assert s[..|x|] == x && s[|x|..] == rest;
      match ss[0]
      case Gap(_) =>
        GapFirst(x, rest);
        GapExact(s, |x|);
        assert [] + TokensOf(ss[1..]) == TokensOf(ss[1..]);
      case Word(tok, _) =>
        TokenExact(s, tok, |x|);
        SpellsFirst(tok, x);
    }
  }

  lemma GapFirst(x: string, rest: string)
    requires IsGap(x, rest)
    ensures x != ""
  {
  }

  lemma {:induction false} LexCuts(s: string) returns (ss: seq<Segment>)
    requires Lex(s).Some?
    ensures Cut(ss) && SourceOf(ss) == s && TokensOf(ss) == Lex(s).value
    decreases |s|
  {
    hide LexToken, Skipped, Spells, Greatest, IsGap;
    if s == "" {
      ss := [];
    } else if Skipped(s) > 0 {
      var n := Skipped(s);
      var more := LexCuts(s[n..]);
      ss := [Gap(s[..n])] + more;
      assert ss[1..] == more && s[..n] + s[n..] == s;
      GapExact(s, n);
      assert [] + TokensOf(more) == TokensOf(more);
    } else {
      var (tok, n) := LexToken(s).value;
      var more := LexCuts(s[n..]);
      ss := [Word(tok, s[..n])] + more;
      assert ss[1..] == more && s[..n] + s[n..] == s;
      TokenExact(s, tok, n);
    }
  }

  ghost predicate CutsInto(ss: seq<Segment>, s: string, ts: seq<Token>) {
    Cut(ss) && SourceOf(ss) == s && TokensOf(ss) == ts
  }

  /** The lexer answers with exactly the tokens of the source: where it is gaps and token texts in
      turn, each at its greatest extent, and of no other source. */
  lemma LexExact(s: string, ts: seq<Token>)
    ensures Lex(s) == Some(ts) <==> exists ss :: CutsInto(ss, s, ts)
  {
    hide Lex, Cut;
    if Lex(s) == Some(ts) {
      var ss := LexCuts(s);
      assert CutsInto(ss, s, ts);
    }
    if exists ss :: CutsInto(ss, s, ts) {
      var ss :| CutsInto(ss, s, ts);
      CutLexes(ss);
    }
  }
}
