/** What rendered text looks like: everything in it can be seen, and a character is escaped only
    when it has to be. */
module Printed {
  import opened Text
  import opened Terminals
  import opened Ir
  import opened Spelling
  import opened Postfix
  import opened Render

  /** Not a control character: neither C0, nor DEL, nor C1. */
  predicate Visible(c: char) { '\U{20}' <= c <= '\U{7E}' || '\U{A0}' <= c }

  predicate AllVisible(s: string) { forall i :: 0 <= i < |s| ==> Visible(s[i]) }

  // ---- hexadecimal digits keep to one case

  predicate InCase(s: string, upper: bool) {
    forall i :: 0 <= i < |s| ==> if upper then s[i] in "0123456789ABCDEF" else s[i] in "0123456789abcdef"
  }

  lemma DigitCase(d: nat, upper: bool)
    requires d < 16
    ensures InCase([HexDigit(d, upper)], upper)
  {
    var c := HexDigit(d, upper);
    if upper { assert "0123456789ABCDEF"[d] == c; } else { assert "0123456789abcdef"[d] == c; }
  }

  lemma {:induction false} FixedCase(n: nat, w: nat, upper: bool)
    ensures InCase(FixedHex(n, w, upper), upper)
  {
    if w != 0 {
      FixedCase(n / 16, w - 1, upper);
      DigitCase(n % 16, upper);
    }
  }

  lemma {:induction false} MinCase(n: nat, upper: bool)
    ensures InCase(MinHex(n, upper), upper)
  {
    if n < 16 { DigitCase(n, upper); } else {
      MinCase(n / 16, upper);
      DigitCase(n % 16, upper);
    }
  }

  /** A control character without a short escape. */
  predicate Nameless(cp: int) { (0 <= cp < 0x20 && cp !in {9, 10, 13}) || 0x7F <= cp <= 0x9F }

  /** Rendered text spells hexadecimal in upper case, an emitted pattern in lower case. */
  lemma EscapeCase(cp: nat)
    ensures 0xFFFF < cp || Nameless(cp) || cp in {0x2D, 0x5E} ==> |ClassChar(cp)| > 2 && InCase(ClassChar(cp)[2..], true)
    ensures Nameless(cp) ==> |LiteralChar(cp as char)| > 2 && InCase(LiteralChar(cp as char)[2..], true)
    ensures cp <= 0xFFFF ==> InCase(ClassEscape(cp)[2..], false)
    ensures 0xFFFF < cp ==> InCase(ClassEscape(cp)[3..|ClassEscape(cp)| - 1], false)
  {
    FixedCase(cp, 2, true);
    FixedCase(cp, 4, false);
    FixedCase(cp, 8, true);
    MinCase(cp, false);
    assert ("\\x" + FixedHex(cp, 2, true))[2..] == FixedHex(cp, 2, true);
    assert ("\\U" + FixedHex(cp, 8, true))[2..] == FixedHex(cp, 8, true);
    assert ("\\u" + FixedHex(cp, 4, false))[2..] == FixedHex(cp, 4, false);
    assert ("\\u{" + MinHex(cp, false) + "}")[3..3 + |MinHex(cp, false)|] == MinHex(cp, false);
  }

  // ---- a character stands for itself wherever it can

  predicate PlainInLiteral(c: char) { Visible(c) && c !in "\"\\" }

  lemma LiteralCharVisible(c: char)
    ensures AllVisible(LiteralChar(c))
    ensures LiteralChar(c) == [c] <==> PlainInLiteral(c)
    ensures LiteralChar(c) != [c] ==> |LiteralChar(c)| > 1
  {
  }

  /** A literal is written between quotes as it stands, exactly when none of its characters needs an
      escape. */
  lemma {:induction false} LiteralVerbatim(text: string)
    ensures AllVisible(LiteralChars(text)) && |text| <= |LiteralChars(text)|
    ensures LiteralChars(text) == text <==> forall i :: 0 <= i < |text| ==> PlainInLiteral(text[i])
  {
    hide LiteralChar, PlainInLiteral;
    if text != "" {
      var a, b := LiteralChar(text[0]), LiteralChars(text[1..]);
      LiteralCharVisible(text[0]);
      LiteralVerbatim(text[1..]);
      assert text == [text[0]] + text[1..];
      assert (a + b)[0] == a[0] && (|a| == 1 ==> (a + b)[1..] == b);
    }
  }

  /** A member of a class stands for itself, unless the class notation has a use for it. */
  lemma MemberVisible(cp: int)
    requires 0 <= cp
    ensures AllVisible(ClassChar(cp))
    ensures IsScalar(cp) ==> (ClassChar(cp) == [cp as char] <==> cp <= 0xFFFF && Visible(cp as char) && cp as char !in "[]\\-^")
  {
  }

  lemma {:induction false} ItemsVisible(its: seq<Item>)
    requires AllNamed(its)
    ensures AllVisible(ItemsText(its))
  {
    hide ClassChar;
    if its != [] {
      MemberVisible(Lo(its[0]));
      MemberVisible(Hi(its[0]));
      ItemsVisible(its[1..]);
    }
  }

  // ---- the whole text

  lemma {:induction false} JoinVisible(parts: seq<string>, sep: string)
    requires AllVisible(sep) && forall i :: 0 <= i < |parts| ==> AllVisible(parts[i])
    ensures AllVisible(Join(parts, sep))
  {
    if |parts| > 1 { JoinVisible(parts[1..], sep); }
  }

  lemma OpVisible(op: Op)
    ensures AllVisible(OpText(op))
  {
  }

  lemma ClassVisible(c: Class)
    requires AllNamed(c.items)
    ensures AllVisible(ClassText(c))
  {
    hide ItemsText;
    ItemsVisible(c.items);
  }

  lemma PiecesVisible(ps: seq<Piece>)
    requires AllLetters(ps)
    ensures forall i :: 0 <= i < |ps| ==> AllVisible(PieceTexts(ps)[i])
  {
    hide LiteralChars;
    forall i | 0 <= i < |ps| ensures AllVisible(PieceTexts(ps)[i]) {
      if ps[i].Chunk? { LiteralVerbatim(ps[i].text); }
    }
  }

  lemma TermVisible(cased: char -> bool, literal: string, rule: string)
    ensures AllVisible(QuoteLiteral(literal))
    ensures match InsensitiveFragments(cased, literal, rule)
            case Ok(parts) => (forall i :: 0 <= i < |parts| ==> AllVisible(parts[i])) && AllVisible(Join(parts, " "))
            case Err(_) => true
  {
    hide LiteralChars, Pieces, PieceTexts, Join, AllLetters;
    LiteralVerbatim(literal);
    PiecesVisible(Pieces(literal, ""));
    JoinVisible(PieceTexts(Pieces(literal, "")), " ");
  }

  lemma {:induction false} ElementVisible(cased: char -> bool, el: Element, rule: string)
    ensures match RenderElement(cased, el, rule)
            case Ok(Some(f)) => AllVisible(f.text)
            case _ => true
    decreases el, 0
  {
    hide ReadClassPattern, InsensitiveFragments, RenderAltTexts, OpText, QuoteLiteral, ClassText, Join;
    match el
    case Term(literal, _) => TermVisible(cased, literal, rule);
    case Ref(_) =>
    case Regex(pattern, _) =>
      if ReadClassPattern(pattern).Some? { ClassVisible(ReadClassPattern(pattern).value); }
    case Group(alts) => AltsVisible(cased, alts, rule);
    case TokTerm(_, _) =>
    case TokenRef(_) =>
    case Prose(_) =>
    case _ =>
      ElementVisible(cased, el.inner, rule);
      OpVisible(OperatorOf(el));
  }

  /** Every text visible, and so are they joined. */
  lemma Joined(parts: seq<string>)
    requires forall i :: 0 <= i < |parts| ==> AllVisible(parts[i])
    ensures AllVisible(Join(parts, " ")) && AllVisible(Join(parts, " | "))
  {
    hide Join;
    JoinVisible(parts, " ");
    JoinVisible(parts, " | ");
  }

  lemma {:induction false} PartsVisible(cased: char -> bool, els: seq<Element>, rule: string)
    ensures match RenderParts(cased, els, rule)
            case Ok(parts) => (forall i :: 0 <= i < |parts| ==> AllVisible(parts[i])) && AllVisible(Join(parts, " "))
            case Err(_) => true
    decreases els, 1
  {
    hide RenderElement, AllVisible, Join;
    if els != [] {
      ElementVisible(cased, els[0], rule);
      PartsVisible(cased, els[1..], rule);
    }
    if RenderParts(cased, els, rule).Ok? { Joined(RenderParts(cased, els, rule).value); }
  }

  lemma {:induction false} AltsVisible(cased: char -> bool, alts: seq<Sequence>, rule: string)
    ensures match RenderAltTexts(cased, alts, rule)
            case Ok(texts) => (forall i :: 0 <= i < |texts| ==> AllVisible(texts[i])) && AllVisible(Join(texts, " | "))
            case Err(_) => true
    decreases alts, 2
  {
    hide RenderParts, AllVisible, Join;
    if alts != [] {
      PartsVisible(cased, alts[0].els, rule);
      AltsVisible(cased, alts[1..], rule);
    }
    if RenderAltTexts(cased, alts, rule).Ok? { Joined(RenderAltTexts(cased, alts, rule).value); }
  }

  lemma {:induction false} LinesVisible(cased: char -> bool, ps: seq<Production>)
    requires forall i :: 0 <= i < |ps| ==> LegalName(ps[i].name)
    ensures match RenderLines(cased, ps)
            case Ok(lines) => |lines| == |ps| && forall i :: 0 <= i < |lines| ==> AllVisible(lines[i])
            case Err(_) => true
  {
    hide RenderAltTexts, Join;
    if ps != [] {
      AltsVisible(cased, ps[0].alts, ps[0].name);
      LinesVisible(cased, ps[1..]);
    }
  }

  /** Each line ends once, after what it says. */
  function Ended(lines: seq<string>): (s: string) {
    if lines == [] then "" else lines[0] + "\n" + Ended(lines[1..])
  }

  lemma {:induction false} JoinEnds(lines: seq<string>)
    requires lines != []
    ensures Join(lines, "\n") + "\n" == Ended(lines)
  {
    if |lines| > 1 {
      JoinEnds(lines[1..]);
      Assoc(lines[0] + "\n", Join(lines[1..], "\n"), "\n");
    }
  }

  /** A rendered grammar is a line for every production, after one for an added root: each line ends
      in a line feed, and holds no control character. */
  lemma RenderedVisible(cased: char -> bool, ps: seq<Production>, start: Option<string>) returns (lines: seq<string>)
    requires RenderGbnf(cased, ps, start).Ok?
    ensures RenderGbnf(cased, ps, start).value == Ended(lines)
    ensures |lines| == |ps| + if ROOT in Names(ps) then 0 else 1
    ensures forall i :: 0 <= i < |lines| ==> AllVisible(lines[i])
  {
    hide RenderLines, Join, CheckNames, LegalName;
    NamesPass(Names(ps), {});
    LinesVisible(cased, ps);
    var root := RootLine(ps, start).value;
    lines := root + RenderLines(cased, ps).value;
    JoinEnds(lines);
    RootVisible(ps, start);
  }

  lemma RootVisible(ps: seq<Production>, start: Option<string>)
    requires ps != [] && forall i :: 0 <= i < |ps| ==> LegalName(ps[i].name)
    ensures match RootLine(ps, start)
            case Ok(root) => |root| == (if ROOT in Names(ps) then 0 else 1) && forall i :: 0 <= i < |root| ==> AllVisible(root[i])
            case Err(_) => true
  {
  }
}
