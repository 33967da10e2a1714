/** The lexer of the notation: five anchored matchers, the fixed tokens, spaces and comments.
    Every matcher is eager, so what is read never depends on what the parser expects. */
module Lexer {
  import opened Text
  import opened Ir
  import opened Terminals
  import opened Spelling
  import opened Postfix

  datatype Token =
    | NM(src: string)    // a rule name
    | DEF                // ::=
    | ALT                // |
    | LP
    | RP
    | DOT
    | GS(src: string)    // a string literal, raw
    | CC(src: string)    // a character class, raw
    | POST(src: string)  // a run of postfix operators
    | TOK(src: string)   // a tokenizer terminal
    | ZZ                 // end of source

  /** Where the delimiter that closes a raw terminal stands; a backslash takes the next character with it. */
  function CloseOf(t: string, close: char): (r: Option<nat>)
    ensures r.Some? ==> r.value < |t| && t[r.value] == close
    decreases |t|
  {
    if t == "" then None
    else if t[0] == close then Some(0)
    else
      var skip := if t[0] == '\\' then 2 else 1;
      if |t| < skip then None
      else match CloseOf(t[skip..], close)
        case None => None
        case Some(k) => Some(skip + k)
  }

  function Delimited(t: string, open: nat, close: char): (r: Option<nat>)
    requires open <= |t|
    ensures r.Some? ==> open < r.value <= |t|
  {
    match CloseOf(t[open..], close)
    case None => None
    case Some(k) => Some(open + k + 1)
  }

  /** The token `t` starts with, and its extent. */
  function LexToken(t: string): (r: Option<(Token, nat)>)
    ensures r.Some? ==> 1 <= r.value.1 <= |t|
  {
    if t == "" then None
    else if t[0] == '"' then
      match Delimited(t, 1, '"') case None => None case Some(n) => Some((GS(t[..n]), n))
    else if t[0] == '[' then
      match Delimited(t, 1, ']') case None => None case Some(n) => Some((CC(t[..n]), n))
    else if t[0] in "*+?{" then
      var n := RunExtent(t);
      if n == 0 then None else Some((POST(t[..n]), n))
    else if t[0] == '<' || (t[0] == '!' && |t| > 1 && t[1] == '<') then
      match Delimited(t, if t[0] == '!' then 2 else 1, '>') case None => None case Some(n) => Some((TOK(t[..n]), n))
    else if IsWord(t[0]) then
      var n := RunLength(t, IsWord);
      Some((NM(t[..n]), n))
    else if |t| >= 3 && t[..3] == "::=" then Some((DEF, 3))
    else if t[0] == '|' then Some((ALT, 1))
    else if t[0] == '(' then Some((LP, 1))
    else if t[0] == ')' then Some((RP, 1))
    else if t[0] == '.' then Some((DOT, 1))
    else None
  }

  predicate InComment(c: char) { c != '\r' && c != '\n' }

  /** How much of `t` is skipped before the next token: one space, or a comment. */
  function Skipped(t: string): (n: nat)
    ensures n <= |t|
  {
    if t == "" then 0
    else if IsSpace(t[0]) then 1
    else if t[0] == '#' then 1 + RunLength(t[1..], InComment)
    else 0
  }

  /** The tokens of a source, or `None` where a character starts none. */
  function Lex(s: string): (r: Option<seq<Token>>)
    ensures r.Some? ==> |r.value| <= |s| && ZZ !in r.value
    decreases |s|
  {
    if s == "" then Some([])
    else if Skipped(s) > 0 then Lex(s[Skipped(s)..])
    else match LexToken(s)
      case None => None
      case Some((tok, n)) => Prepend([tok], Lex(s[n..]))
  }

  /** The lexer as it runs: a position, and the tokens so far. */
  method LexLoop(s: string) returns (ok: bool, tokens: seq<Token>)
    ensures ok == Lex(s).Some?
    ensures ok ==> tokens == Lex(s).value
  {
    hide LexToken, Skipped;
    var i := 0;
    ok, tokens := true, [];
    assert s[0..] == s;
    PrependNothing(Lex(s));
    while i < |s|
      invariant i <= |s|
      invariant Lex(s) == Prepend(tokens, Lex(s[i..]))
      decreases |s| - i
    {
      var skip := Skipped(s[i..]);
      if skip > 0 {
        assert s[i..][skip..] == s[i + skip..];
        i := i + skip;
      } else {
        var next := LexToken(s[i..]);
        if next.None? { return false, []; }
        var (tok, n) := next.value;
        assert s[i..][n..] == s[i + n..];
        PrependTwice(tokens, [tok], Lex(s[i + n..]));
        tokens, i := tokens + [tok], i + n;
      }
    }
    assert Lex(s[i..]) == Some([]);
    assert tokens + [] == tokens;
  }

  lemma LexStep(x: string, t: string, tok: Token)
    requires x != "" && Skipped(x + t) == 0 && LexToken(x + t) == Some((tok, |x|))
    ensures Lex(x + t) == Prepend([tok], Lex(t))
  {
    hide LexToken, Skipped;
    assert (x + t)[|x|..] == t;
  }

  lemma LexSpace(c: char, t: string)
    requires IsSpace(c)
    ensures Lex([c] + t) == Lex(t)
  {
    assert ([c] + t)[1..] == t;
  }

  // ---- tokens read back from their own spelling

  /** A raw body that holds no closing delimiter of its own. */
  predicate Balanced(b: string, close: char)
    decreases |b|
  {
    b == "" ||
    if b[0] == '\\' then |b| >= 2 && Balanced(b[2..], close) else b[0] != close && Balanced(b[1..], close)
  }

  lemma {:induction false} BalancedConcat(a: string, b: string, close: char)
    requires Balanced(a, close) && Balanced(b, close)
    ensures Balanced(a + b, close)
    decreases |a|
  {
    if a == "" {
      assert a + b == b;
    } else {
      var skip := if a[0] == '\\' then 2 else 1;
      assert (a + b)[skip..] == a[skip..] + b;
      BalancedConcat(a[skip..], b, close);
    }
  }

  lemma {:induction false} CloseOfBalanced(b: string, close: char, t: string)
    requires Balanced(b, close) && close != '\\'
    ensures CloseOf(b + ([close] + t), close) == Some(|b|)
    decreases |b|
  {
    hide CloseOf;
    var all := b + ([close] + t);
    CloseStep(all, close);
    if b == "" {
      assert all == [close] + t;
    } else {
      var skip := if b[0] == '\\' then 2 else 1;
      assert all[skip..] == b[skip..] + ([close] + t);
      CloseOfBalanced(b[skip..], close, t);
    }
  }

  lemma CloseStep(t: string, close: char)
    requires t != ""
    ensures CloseOf(t, close) ==
            if t[0] == close then Some(0)
            else
              var skip := if t[0] == '\\' then 2 else 1;
              if |t| < skip then None
              else match CloseOf(t[skip..], close) case None => None case Some(k) => Some(skip + k)
  {
  }

  lemma {:induction false} PlainBalanced(b: string, close: char)
    requires forall i :: 0 <= i < |b| ==> b[i] != '\\' && b[i] != close
    ensures Balanced(b, close)
  {
    if b != "" { PlainBalanced(b[1..], close); }
  }

  lemma EscapeBalanced(mark: char, digits: string, close: char)
    requires AllHex(digits) && (close == '"' || close == ']')
    ensures Balanced(['\\', mark] + digits, close)
  {
    forall i | 0 <= i < |digits| ensures digits[i] != '\\' && digits[i] != close { assert IsHex(digits[i]); }
    PlainBalanced(digits, close);
    assert (['\\', mark] + digits)[2..] == digits;
  }

  lemma LiteralCharBalanced(c: char)
    ensures Balanced(LiteralChar(c), '"')
  {
    if c == '"' || c == '\\' || SimpleSpelling(c) != "" {
      EscapeBalanced(LiteralChar(c)[1], "", '"');
      assert LiteralChar(c) == ['\\', LiteralChar(c)[1]] + "";
    } else if Control(c as int) {
      EscapeBalanced('x', FixedHex(c as int, 2, true), '"');
      assert "\\x" == ['\\', 'x'];
    } else {
      PlainBalanced([c], '"');
    }
  }

  lemma ClassCharBalanced(cp: int)
    requires 0 <= cp
    ensures Balanced(ClassChar(cp), ']')
  {
    var s := ClassChar(cp);
    if IsSurrogate(cp) {
    } else if 0xFFFF < cp {
      EscapeBalanced('U', FixedHex(cp, 8, true), ']');
      assert "\\U" == ['\\', 'U'];
    } else if cp == '-' as int {
      EscapeBalanced('u', "002D", ']');
      assert "\\u002D" == ['\\', 'u'] + "002D";
    } else if cp == '^' as int {
      EscapeBalanced('u', "005E", ']');
      assert "\\u005E" == ['\\', 'u'] + "005E";
    } else if cp as char in "][\\" || SimpleSpelling(cp as char) != "" {
      EscapeBalanced(s[1], "", ']');
      assert s == ['\\', s[1]] + "";
    } else if Control(cp) {
      EscapeBalanced('x', FixedHex(cp, 2, true), ']');
      assert "\\x" == ['\\', 'x'];
    } else {
      PlainBalanced(s, ']');
    }
  }

  lemma {:induction false} LiteralBalanced(text: string)
    ensures Balanced(LiteralChars(text), '"')
  {
    hide LiteralChar;
    if text != "" {
      LiteralCharBalanced(text[0]);
      LiteralBalanced(text[1..]);
      BalancedConcat(LiteralChar(text[0]), LiteralChars(text[1..]), '"');
    }
  }

  lemma ItemBalanced(it: Item)
    requires Named(it)
    ensures Balanced(ItemText(it), ']')
  {
    hide ClassChar;
    ClassCharBalanced(Lo(it));
    ClassCharBalanced(Hi(it));
    PlainBalanced("-", ']');
    BalancedConcat(ClassChar(Lo(it)), "-", ']');
    BalancedConcat(ClassChar(Lo(it)) + "-", ClassChar(Hi(it)), ']');
  }

  lemma {:induction false} ItemsBalanced(its: seq<Item>)
    requires AllNamed(its)
    ensures Balanced(ItemsText(its), ']')
  {
    hide ItemText;
    if its != [] {
      ItemBalanced(its[0]);
      ItemsBalanced(its[1..]);
      BalancedConcat(ItemText(its[0]), ItemsText(its[1..]), ']');
    }
  }

  lemma LexDelimited(open: char, body: string, close: char, t: string)
    requires (open == '"' && close == '"') || (open == '[' && close == ']')
    requires Balanced(body, close)
    ensures var raw := [open] + (body + [close]);
            LexToken(raw + t) == Some((if open == '"' then GS(raw) else CC(raw), |raw|)) && Skipped(raw + t) == 0
  {
    hide CloseOf, Balanced, RunExtent;
    var raw := [open] + (body + [close]);
    var all := raw + t;
    CloseOfBalanced(body, close, t);
    assert all[1..] == body + ([close] + t);
    assert all[..|raw|] == raw;
  }

  lemma LexQuoted(text: string, t: string)
    ensures Lex(QuoteLiteral(text) + t) == Prepend([GS(QuoteLiteral(text))], Lex(t))
  {
    hide LiteralChars, LexToken, Skipped;
    LiteralBalanced(text);
    LexDelimited('"', LiteralChars(text), '"', t);
    assert QuoteLiteral(text) == ['"'] + (LiteralChars(text) + ['"']);
    LexStep(QuoteLiteral(text), t, GS(QuoteLiteral(text)));
  }

  lemma LexClass(c: Class, t: string)
    requires AllNamed(c.items)
    ensures Lex(ClassText(c) + t) == Prepend([CC(ClassText(c))], Lex(t))
  {
    hide ItemsText, LexToken, Skipped;
    ItemsBalanced(c.items);
    PlainBalanced("^", ']');
    BalancedConcat("^", ItemsText(c.items), ']');
    var body := if c.negated then "^" + ItemsText(c.items) else ItemsText(c.items);
    LexDelimited('[', body, ']', t);
    assert ClassText(c) == ['['] + (body + [']']);
    LexStep(ClassText(c), t, CC(ClassText(c)));
  }

  lemma LexName(name: string, t: string)
    requires LegalName(name)
    requires t == "" || !IsWord(t[0])
    ensures Lex(name + t) == Prepend([NM(name)], Lex(t))
  {
    RunLengthIs(name, t, IsWord);
    assert IsWord(name[0]);
    assert (name + t)[..|name|] == name;
    LexStep(name, t, NM(name));
  }

  lemma LexRun(ops: seq<Op>, t: string)
    requires ops != [] && NoOpAhead(t)
    ensures Lex(OpsText(ops) + t) == Prepend([POST(OpsText(ops))], Lex(t))
  {
    hide RunExtent, OpsText, NoOpAhead;
    RunOfText(ops, t);
    var x := OpsText(ops);
    assert (x + t)[..|x|] == x;
    LexStep(x, t, POST(x));
  }

  lemma FixedToken(x: string, t: string, tok: Token)
    requires (x, tok) in [("|", ALT), ("(", LP), (")", RP), (".", DOT)]
    ensures Skipped(x + t) == 0 && LexToken(x + t) == Some((tok, 1))
  {
    hide RunExtent, Delimited, RunLength;
    assert |x| == 1 && (x + t)[0] == x[0];
  }

  lemma DefToken(t: string)
    ensures Skipped("::=" + t) == 0 && LexToken("::=" + t) == Some((DEF, 3))
  {
    hide RunExtent, Delimited, RunLength;
    assert ("::=" + t)[..3] == "::=" && ("::=" + t)[0] == ':';
  }

  lemma LexFixed(x: string, t: string, tok: Token)
    requires (x, tok) in [("|", ALT), ("(", LP), (")", RP), (".", DOT), ("::=", DEF)]
    ensures Lex(x + t) == Prepend([tok], Lex(t))
  {
    hide Lex, LexToken, Skipped;
    if x == "::=" { DefToken(t); } else { FixedToken(x, t, tok); }
    LexStep(x, t, tok);
  }
}
