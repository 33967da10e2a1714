/** The strings a grammar accepts, and when rendering and parsing keeps them. */
module Language {
  import opened Text
  import opened Ir
  import opened Terminals
  import opened Spelling
  import opened Postfix
  import opened Render
  import opened Validate
  import opened FrontEnd
  import opened Reading
  import opened Normal
  import opened RoundTrip
  import opened Image
  import opened FixedPoint

  // ---- meaning

  /** The same character, or the two cases of one ASCII letter: section 2.3 of RFC 5234. */
  predicate SameLetter(c: char, d: char) {
    c == d || ('A' <= c <= 'Z' && d as int == c as int + 32) || ('A' <= d <= 'Z' && c as int == d as int + 32)
  }

  predicate SameText(s: string, t: string) { |s| == |t| && forall i :: 0 <= i < |s| ==> SameLetter(s[i], t[i]) }

  predicate InItems(its: seq<Item>, cp: int) { exists it <- its :: Lo(it) <= cp <= Hi(it) }

  /** One character, matched by a class. Without Unicode mode nothing past the Basic Multilingual
      Plane is one unit. */
  predicate ClassHolds(c: Class, unicode: bool, ch: char) {
    (unicode || ch as int <= 0xFFFF) && c.negated != InItems(c.items, ch as int)
  }

  /** The escapes of the two units of a character past the Basic Multilingual Plane. */
  function Halves(c: char): (s: string)
    requires 0xFFFF < c as int
  {
    ClassEscape(0xD800 + (c as int - 0x10000) / 0x400) + ClassEscape(0xDC00 + (c as int - 0x10000) % 0x400)
  }

  function Unit(c: char): (s: string) { if 0xFFFF < c as int then Halves(c) else [c] }

  /** What a pattern lists when it is not in Unicode mode, spelled out: `\u{` is then a letter and a
      brace, and a character past the Basic Multilingual Plane is its two units. */
  function Legacy(t: string): (s: string)
    decreases |t|
  {
    if t == "" then ""
    else if t[0] != '\\' || |t| == 1 then Unit(t[0]) + Legacy(t[1..])
    else if t[1] == 'u' && |t| > 2 && t[2] == '{' then "u" + Legacy(t[2..])
    else if 0xFFFF < t[1] as int then Halves(t[1]) + Legacy(t[2..])
    else [t[0], t[1]] + Legacy(t[2..])
  }

  /** What `\s` matches in a JavaScript expression. */
  predicate WhiteSpace(ch: char) {
    var cp := ch as int;
    || 9 <= cp <= 13 || cp == 0x20 || cp == 0xA0 || cp == 0x1680 || 0x2000 <= cp <= 0x200A
    || cp == 0x2028 || cp == 0x2029 || cp == 0x202F || cp == 0x205F || cp == 0x3000 || cp == 0xFEFF
  }

  predicate Shorthand(mark: char, ch: char) { if mark == 's' then WhiteSpace(ch) else mark == 'S' && !WhiteSpace(ch) }

  /** A class of two shorthands, as `[\s\S]` is. */
  predicate ShorthandClass(p: string) {
    |p| == 6 && p[0] == '[' && p[1] == '\\' && p[2] in ['s', 'S'] && p[3] == '\\' && p[4] in ['s', 'S'] && p[5] == ']'
  }

  predicate Holds(pattern: string, flags: string, ch: char) {
    if ShorthandClass(pattern) then
      ('u' in flags || ch as int <= 0xFFFF) && (Shorthand(pattern[2], ch) || Shorthand(pattern[4], ch))
    else match ReadClassPattern(if 'u' in flags then pattern else Legacy(pattern))
      case None => false
      case Some(c) => ClassHolds(c, 'u' in flags, ch)
  }

  function Body(g: seq<Production>, name: string): (alts: seq<Sequence>)
  {
    if g == [] then [] else if g[0].name == name then g[0].alts else Body(g[1..], name)
  }

  predicate Allows(min: nat, max: Bound, k: nat) { min <= k && (max.Finite? ==> k <= max.n) }

  /** The element matches `s`, with references expanded at most `n` deep. */
  ghost predicate In(n: nat, g: seq<Production>, el: Element, s: string)
    decreases n, el, 0
  {
    match el
    case Term(literal, caseSensitive) => if caseSensitive then s == literal else SameText(s, literal)
    case Ref(name) => n > 0 && InAlts(n - 1, g, Body(g, name), s)
    case Regex(pattern, flags) => |s| == 1 && Holds(pattern, flags, s[0])
    case Group(alts) => InAlts(n, g, alts, s)
    case Opt(inner) => exists k :: Allows(0, Finite(1), k) && InTimes(n, g, inner, k, s)
    case Star(inner) => exists k :: Allows(0, Infinity, k) && InTimes(n, g, inner, k, s)
    case Plus(inner) => exists k :: Allows(1, Infinity, k) && InTimes(n, g, inner, k, s)
    case Rep(min, max, inner) => exists k :: Allows(min, max, k) && InTimes(n, g, inner, k, s)
    case _ => false
  }

  /** `k` matches of the element, one after another. */
  ghost predicate InTimes(n: nat, g: seq<Production>, el: Element, k: nat, s: string)
    decreases n, el, k + 1
  {
    if k == 0 then s == ""
    else exists i | 0 <= i <= |s| :: In(n, g, el, s[..i]) && InTimes(n, g, el, k - 1, s[i..])
  }

  ghost predicate InSeq(n: nat, g: seq<Production>, els: seq<Element>, s: string)
    decreases n, els, 1
  {
    if els == [] then s == ""
    else exists i | 0 <= i <= |s| :: In(n, g, els[0], s[..i]) && InSeq(n, g, els[1..], s[i..])
  }

  ghost predicate InAlts(n: nat, g: seq<Production>, alts: seq<Sequence>, s: string)
    decreases n, alts, 2
  {
    alts != [] && (InSeq(n, g, alts[0].els, s) || InAlts(n, g, alts[1..], s))
  }

  ghost predicate InCount(n: nat, g: seq<Production>, el: Element, min: nat, max: Bound, s: string) {
    exists k :: Allows(min, max, k) && InTimes(n, g, el, k, s)
  }

  /** The strings a rule stands for. */
  ghost predicate Accepts(g: seq<Production>, rule: string, s: string) { exists n: nat :: In(n, g, Ref(rule), s) }

  // ---- sequences

  lemma Cut(s: string, i: nat, j: nat)
    requires i <= j <= |s|
    ensures s[i..][..j - i] == s[i..j] && s[..j][i..] == s[i..j] && s[..j][..i] == s[..i] && s[i..][j - i..] == s[j..]
  {
  }

  lemma {:induction false} InSeqConcat(n: nat, g: seq<Production>, a: seq<Element>, b: seq<Element>, s: string)
    ensures InSeq(n, g, a + b, s) <==> exists i | 0 <= i <= |s| :: InSeq(n, g, a, s[..i]) && InSeq(n, g, b, s[i..])
    decreases a
  {
    if a == [] {
      hide In;
      assert a + b == b;
      assert s[..0] == "" && s[0..] == s;
    } else {
      hide In, InSeq;
      var all := a + b;
      assert all[0] == a[0] && all[1..] == a[1..] + b;
      if InSeq(n, g, all, s) {
        var i := InSeqHead(n, g, all, s);
        InSeqConcat(n, g, a[1..], b, s[i..]);
        var j :| 0 <= j <= |s[i..]| && InSeq(n, g, a[1..], s[i..][..j]) && InSeq(n, g, b, s[i..][j..]);
        Cut(s, i, i + j);
      }
      if exists m | 0 <= m <= |s| :: InSeq(n, g, a, s[..m]) && InSeq(n, g, b, s[m..]) {
        var m :| 0 <= m <= |s| && InSeq(n, g, a, s[..m]) && InSeq(n, g, b, s[m..]);
        var i := InSeqHead(n, g, a, s[..m]);
        Cut(s, i, m);
        InSeqConcat(n, g, a[1..], b, s[i..]);
      }
    }
  }

  lemma InSeqHead(n: nat, g: seq<Production>, els: seq<Element>, s: string) returns (i: nat)
    requires els != [] && InSeq(n, g, els, s)
    ensures i <= |s| && In(n, g, els[0], s[..i]) && InSeq(n, g, els[1..], s[i..])
  {
    hide In;
    i :| 0 <= i <= |s| && In(n, g, els[0], s[..i]) && InSeq(n, g, els[1..], s[i..]);
  }

  lemma InSeqOne(n: nat, g: seq<Production>, el: Element, s: string)
    ensures InSeq(n, g, [el], s) <==> In(n, g, el, s)
  {
    hide In;
    var els := [el];
    assert els[1..] == [];
    assert s[..|s|] == s && s[|s|..] == "";
    if InSeq(n, g, els, s) {
      var i :| 0 <= i <= |s| && In(n, g, els[0], s[..i]) && InSeq(n, g, els[1..], s[i..]);
      assert i == |s|;
    }
  }

  lemma WholeIn(n: nat, g: seq<Production>, els: seq<Element>, s: string)
    ensures In(n, g, Whole(els), s) <==> InSeq(n, g, els, s)
  {
    hide InSeq;
    if |els| == 1 {
      assert els == [els[0]];
      InSeqOne(n, g, els[0], s);
    } else {
      var alts := [Sequence(els)];
      assert alts[1..] == [] && !InAlts(n, g, [], s);
      assert InAlts(n, g, alts, s) <==> InSeq(n, g, els, s);
    }
  }

  // ---- repetition

  lemma TimesStep(n: nat, g: seq<Production>, el: Element, k: nat, s: string)
    ensures InTimes(n, g, el, k, s) <==>
            if k == 0 then s == "" else exists i | 0 <= i <= |s| :: In(n, g, el, s[..i]) && InTimes(n, g, el, k - 1, s[i..])
  {
    hide In;
  }

  lemma {:induction false} TimesSame(n: nat, g: seq<Production>, h: seq<Production>, x: Element, y: Element, k: nat, s: string)
    requires forall t :: In(n, g, x, t) <==> In(n, h, y, t)
    ensures InTimes(n, g, x, k, s) <==> InTimes(n, h, y, k, s)
    decreases k
  {
    hide In, InTimes;
    TimesStep(n, g, x, k, s);
    TimesStep(n, h, y, k, s);
    if k != 0 {
      forall i | 0 <= i <= |s| ensures InTimes(n, g, x, k - 1, s[i..]) <==> InTimes(n, h, y, k - 1, s[i..]) {
        TimesSame(n, g, h, x, y, k - 1, s[i..]);
      }
    }
  }

  lemma CountSame(n: nat, g: seq<Production>, h: seq<Production>, x: Element, y: Element, min: nat, max: Bound, s: string)
    requires forall t :: In(n, g, x, t) <==> In(n, h, y, t)
    ensures InCount(n, g, x, min, max, s) <==> InCount(n, h, y, min, max, s)
  {
    hide In, InTimes;
    forall k: nat ensures InTimes(n, g, x, k, s) <==> InTimes(n, h, y, k, s) { TimesSame(n, g, h, x, y, k, s); }
  }

  lemma Once(n: nat, g: seq<Production>, el: Element, s: string)
    ensures InCount(n, g, el, 1, Finite(1), s) <==> In(n, g, el, s)
  {
    hide In;
    assert s[..|s|] == s && s[|s|..] == "";
    assert InTimes(n, g, el, 0, "");
    if In(n, g, el, s) {
      assert In(n, g, el, s[..|s|]) && InTimes(n, g, el, 0, s[|s|..]);
      assert InTimes(n, g, el, 1, s);
      assert Allows(1, Finite(1), 1);
    }
    if InCount(n, g, el, 1, Finite(1), s) {
      var k :| Allows(1, Finite(1), k) && InTimes(n, g, el, k, s);
      assert k == 1;
      var i :| 0 <= i <= |s| && In(n, g, el, s[..i]) && InTimes(n, g, el, 0, s[i..]);
      assert i == |s|;
    }
  }

  function LeastOf(el: Element): (min: nat)
    requires el.Opt? || el.Star? || el.Plus? || el.Rep?
  {
    match el case Opt(_) => 0 case Star(_) => 0 case Plus(_) => 1 case Rep(min, _, _) => min
  }

  function MostOf(el: Element): (max: Bound)
    requires el.Opt? || el.Star? || el.Plus? || el.Rep?
  {
    match el case Opt(_) => Finite(1) case Star(_) => Infinity case Plus(_) => Infinity case Rep(_, max, _) => max
  }

  lemma CountedIn(n: nat, g: seq<Production>, el: Element, s: string)
    requires el.Opt? || el.Star? || el.Plus? || el.Rep?
    ensures In(n, g, el, s) <==> InCount(n, g, el.inner, LeastOf(el), MostOf(el), s)
  {
    hide InTimes;
  }

  /** An operator lowered onto an element counts it as the operator says. */
  lemma AppliedIn(n: nat, g: seq<Production>, el: Element, whole: Element, s: string)
    requires (el.Opt? || el.Star? || el.Plus? || el.Rep?) && ApplyOp(whole, OperatorOf(el)).Some?
    ensures In(n, g, ApplyOp(whole, OperatorOf(el)).value, s) <==> InCount(n, g, whole, LeastOf(el), MostOf(el), s)
  {
    hide In, InCount;
    var r := ApplyOp(whole, OperatorOf(el)).value;
    if OperatorOf(el) == RepOp(1, Finite(1)) {
      Once(n, g, whole, s);
    } else {
      CountedIn(n, g, r, s);
    }
  }

  // ---- what the pattern reader takes for a character

  /** The escapes of a pattern: controls by their letters, and whatever is no letter or digit by itself. */
  predicate PatternNames(s: string, cp: int) {
    || (s == "\\n" && cp == 10)
    || (s == "\\r" && cp == 13)
    || (s == "\\t" && cp == 9)
    || (s == "\\f" && cp == 12)
    || (s == "\\v" && cp == 11)
    || (s == "\\0" && cp == 0)
    || (|s| == 2 && s[0] == '\\' && cp == s[1] as int
        && !('0' <= s[1] <= '9') && !('a' <= s[1] <= 'z') && !('A' <= s[1] <= 'Z'))
  }

  predicate PatternNumbers(s: string, cp: int) {
    && ((|s| == 4 && s[..2] == "\\x") || (|s| == 6 && s[..2] == "\\u"))
    && AllHex(s[2..]) && ParseHex(s[2..]) == cp
  }

  /** `\u{`, digits (the reader also takes a `+` before them), and a brace. */
  predicate PatternBraced(s: string, cp: int) {
    && |s| > 4 && s[..3] == "\\u{" && s[|s| - 1] == '}'
    && var body := s[3..|s| - 1];
       var digits := if |body| > 1 && body[0] == '+' then body[1..] else body;
       digits != "" && AllHex(digits) && ParseHex(digits) == cp < 0x1_0000_0000
  }

  predicate PatternDenotes(s: string, cp: int) {
    (|s| == 1 && s[0] != '\\' && cp == s[0] as int) || PatternNames(s, cp) || PatternNumbers(s, cp) || PatternBraced(s, cp)
  }

  lemma EscapeNamed(t: string, cp: int)
    requires |t| >= 2 && t[0] == '\\' && t[1] != 'u' && t[1] != 'x'
    ensures PatternEscape(t[1]).Some? && PatternEscape(t[1]).value as int == cp <==> PatternNames(t[..2], cp)
  {
    assert t[..2] == [t[0], t[1]];
  }

  lemma FixedDigits(t: string, n: nat, cp: int)
    requires |t| >= 2 && t[0] == '\\' && n <= |t| && ((t[1] == 'x' && n == 4) || (t[1] == 'u' && n == 6))
    ensures PatternNumbers(t[..n], cp) <==> AllHex(t[2..n]) && ParseHex(t[2..n]) == cp
  {
    hide ParseHex;
    assert t[..n][..2] == [t[0], t[1]] && t[..n][2..] == t[2..n];
  }

  lemma Inside(t: string, n: nat, i: nat, j: nat)
    requires i <= j <= n <= |t|
    ensures t[..n][i..j] == t[i..j]
  {
  }

  lemma BracedDigits(t: string, n: nat, cp: int)
    requires |t| > 2 && t[..3] == "\\u{" && 3 < n <= |t| && t[n - 1] == '}'
    ensures PatternBraced(t[..n], cp) <==> ParseU32(t[3..n - 1]) == Some(cp)
  {
    hide ParseHex;
    Inside(t, n, 3, n - 1);
    Inside(t, n, 0, 3);
  }

  /** Digits and a plus hold no brace: the first one closes. */
  lemma BracedCloses(t: string, n: nat, cp: int)
    requires |t| > 2 && t[..3] == "\\u{" && 3 < n <= |t| && PatternBraced(t[..n], cp)
    ensures CloseAt(t[3..]) == n - 4
  {
    hide ParseHex;
    var body := t[3..n - 1];
    Inside(t, n, 3, n - 1);
    forall i | 0 <= i < |body| ensures body[i] != '}' {
      if |body| > 1 && body[0] == '+' { if i > 0 { assert body[1..][i - 1] == body[i] && IsHex(body[1..][i - 1]); } }
      else { assert IsHex(body[i]); }
    }
    RunLengthIs(body, t[n - 1..], c => c != '}');
    assert t[3..] == body + t[n - 1..];
  }

  lemma DenotesFirst(s: string, cp: int)
    ensures PatternNames(s, cp) ==> |s| == 2 && s[0] == '\\' && s[1] != 'u' && s[1] != 'x'
    ensures PatternNumbers(s, cp) ==> |s| >= 4 && s[0] == '\\' && (s[1] == 'u' || s[1] == 'x') && |s| == (if s[1] == 'x' then 4 else 6) && s[2] != '{'
    ensures PatternBraced(s, cp) ==> |s| > 4 && s[0] == '\\' && s[1] == 'u' && s[2] == '{' && s[..3] == "\\u{"
  {
    hide ParseHex;
    if PatternNumbers(s, cp) {
      assert s[..2][0] == s[0] && s[..2][1] == s[1] && s[2..][0] == s[2] && IsHex(s[2..][0]);
    }
    if PatternBraced(s, cp) { assert s[..3][0] == s[0] && s[..3][1] == s[1] && s[..3][2] == s[2]; }
  }

  /** A pattern's character is read exactly where its spelling stands. */
  lemma ReadOneExact(t: string, cp: int, n: nat)
    ensures ReadOne(t) == Some(Read(cp, n)) <==> n <= |t| && PatternDenotes(t[..n], cp)
  {
    hide PatternNames, PatternNumbers, PatternBraced, ParseHex, ParseU32, CloseAt, PatternEscape;
    if n <= |t| { DenotesFirst(t[..n], cp); }
    if 0 < n <= |t| { assert t[..n][0] == t[0]; }
    if 1 < n <= |t| { assert t[..n][1] == t[1]; }
    if 2 < n <= |t| { assert t[..n][2] == t[2]; }
    if |t| >= 2 && t[0] == '\\' {
      if t[1] == 'u' && |t| > 2 && t[2] == '{' {
        ReadBracedExact(t, cp, n);
      } else if t[1] == 'u' || t[1] == 'x' {
        var w := if t[1] == 'x' then 4 else 6;
        if n == w && n <= |t| { FixedDigits(t, n, cp); }
      } else {
        EscapeNamed(t, cp);
      }
    }
  }

  lemma ReadBracedExact(t: string, cp: int, n: nat)
    requires |t| > 2 && t[0] == '\\' && t[1] == 'u' && t[2] == '{'
    ensures ReadOne(t) == Some(Read(cp, n)) <==> n <= |t| && PatternDenotes(t[..n], cp)
  {
    hide PatternNames, PatternNumbers, PatternBraced, ParseHex, ParseU32, CloseAt, PatternEscape;
    assert t[..3] == "\\u{";
    if n <= |t| { DenotesFirst(t[..n], cp); }
    if 0 < n <= |t| { assert t[..n][0] == t[0]; }
    if 1 < n <= |t| { assert t[..n][1] == t[1]; }
    if 2 < n <= |t| { assert t[..n][2] == t[2]; }
    var k := CloseAt(t[3..]);
    if n <= |t| && PatternBraced(t[..n], cp) {
      BracedCloses(t, n, cp);
      assert t[..n][n - 1] == t[n - 1] by { LastBrace(t[..n], cp); }
      LastBrace(t[..n], cp);
      BracedDigits(t, n, cp);
    }
    if n == 4 + k && n <= |t| && 3 + k < |t| { BracedDigits(t, n, cp); }
  }

  lemma LastBrace(s: string, cp: int)
    requires PatternBraced(s, cp)
    ensures s[|s| - 1] == '}'
  {
  }

  // ---- `.`

  lemma ShorthandNoClass(p: string)
    requires ShorthandClass(p)
    ensures ReadClassPattern(p).None?
  {
    var t := p[1..];
    assert t[0] == '\\' && t[1] in ['s', 'S'] && p[1] != '^';
    assert ReadOne(t).None?;
  }

  /** A class of two shorthands matches white space, what is not, or both, as they say. */
  lemma ShorthandMatches(a: char, b: char, flags: string, ch: char)
    requires a in ['s', 'S'] && b in ['s', 'S']
    ensures Holds(['[', '\\', a, '\\', b, ']'], flags, ch) <==>
            && ('u' in flags || ch as int <= 0xFFFF)
            && (if WhiteSpace(ch) then a == 's' || b == 's' else a == 'S' || b == 'S')
  {
  }

  /** The pattern of `.` matches every character: what is white space, and what is not. */
  lemma AnyMatches(flags: string, ch: char)
    ensures Holds(ANY_PATTERN, flags, ch) <==> 'u' in flags || ch as int <= 0xFFFF
  {
  }

  lemma ClassPattern(pattern: string)
    requires ReadClassPattern(pattern).Some?
    ensures !ShorthandClass(pattern)
  {
    hide ReadClassPattern;
    if ShorthandClass(pattern) { ShorthandNoClass(pattern); }
  }

  // ---- emitted classes mean what they list, in the mode the decoder chose

  lemma {:induction false} LegacyPlain(s: string, t: string)
    requires forall i :: 0 <= i < |s| ==> s[i] != '\\' && s[i] as int <= 0xFFFF
    ensures Legacy(s + t) == s + Legacy(t)
  {
    hide Halves, Legacy;
    if s == "" {
      assert s + t == t && "" + Legacy(t) == Legacy(t);
    } else {
      assert (s + t)[1..] == s[1..] + t;
      LegacyStep(s + t);
      LegacyPlain(s[1..], t);
      assert [s[0]] + (s[1..] + Legacy(t)) == s + Legacy(t);
    }
  }

  lemma LegacyStep(t: string)
    requires t != "" && t[0] != '\\' && t[0] as int <= 0xFFFF
    ensures Legacy(t) == [t[0]] + Legacy(t[1..])
  {
  }

  lemma LegacyEscape(cp: int, t: string)
    requires 0 <= cp <= 0xFFFF
    ensures Legacy(ClassEscape(cp) + t) == ClassEscape(cp) + Legacy(t)
  {
    var hex := FixedHex(cp, 4, false);
    var all := ClassEscape(cp) + t;
    assert IsHex(hex[0]) && all[2] == hex[0];
    assert all[2..] == hex + t;
    forall i | 0 <= i < |hex| ensures hex[i] != '\\' && hex[i] as int <= 0xFFFF { assert IsHex(hex[i]); }
    LegacyPlain(hex, t);
    assert "\\u" == ['\\', 'u'];
    Assoc("\\u", hex, Legacy(t));
  }

  lemma LegacyItem(it: Item, t: string)
    requires Named(it) && Lo(it) <= 0xFFFF && Hi(it) <= 0xFFFF
    ensures Legacy(EmitItem(it) + t) == EmitItem(it) + Legacy(t)
  {
    hide ClassEscape, Legacy;
    if it.One? {
      LegacyEscape(it.cp, t);
    } else {
      var a, b := ClassEscape(it.lo), ClassEscape(it.hi);
      assert EmitItem(it) + t == a + ("-" + (b + t));
      LegacyEscape(it.lo, "-" + (b + t));
      LegacyPlain("-", b + t);
      LegacyEscape(it.hi, t);
      assert a + ("-" + (b + Legacy(t))) == EmitItem(it) + Legacy(t);
    }
  }

  lemma {:induction false} LegacyItems(its: seq<Item>, t: string)
    requires AllNamed(its) && !Astral(its)
    ensures Legacy(EmitItems(its) + t) == EmitItems(its) + Legacy(t)
  {
    hide EmitItem, Legacy;
    if its == [] {
      assert "" + t == t && "" + Legacy(t) == Legacy(t);
    } else {
      var s, rest := EmitItem(its[0]), EmitItems(its[1..]);
      assert its[0] in its;
      assert forall it :: it in its[1..] ==> it in its;
      Assoc(s, rest, t);
      LegacyItem(its[0], rest + t);
      LegacyItems(its[1..], t);
      Assoc(s, rest, Legacy(t));
    }
  }

  /** An emitted class without a member past the Basic Multilingual Plane reads alike in both modes. */
  lemma EmittedLegacy(c: Class)
    requires AllNamed(c.items) && !Astral(c.items)
    ensures Legacy(EmitClass(c)) == EmitClass(c)
  {
    hide EmitItems, Legacy, Astral;
    var head, body := if c.negated then "[^" else "[", EmitItems(c.items);
    assert EmitClass(c) == head + (body + "]");
    LegacyPlain(head, body + "]");
    LegacyItems(c.items, "]");
    LegacyPlain("]", "");
    assert "]" + "" == "]" && Legacy("") == "" by { LegacyNothing(); }
  }

  lemma LegacyNothing()
    ensures Legacy("") == ""
  {
  }

  lemma EmittedHolds(c: Class, ch: char)
    requires ScalarClass(c)
    ensures Holds(EmitClass(c), FlagsFor(c), ch) <==> ClassHolds(c, 'u' in FlagsFor(c), ch)
  {
    hide EmitClass, ReadClassPattern, ClassHolds, Legacy, Astral;
    EmittedReadsBack(c);
    ClassPattern(EmitClass(c));
    assert "u"[0] == 'u' && 'u' !in "";
    if FlagsFor(c) == "" { EmittedLegacy(c); }
  }

  // ---- folded literals

  lemma LetterHolds(c: char, d: char)
    requires IsLetter(c)
    ensures Holds(EmitClass(LetterClass(c)), "", d) <==> SameLetter(d, c)
  {
    hide EmitClass, ReadClassPattern;
    var cl := LetterClass(c);
    EmittedHolds(cl, d);
    assert cl.items[0] == One(LowerCase(c) as int) && cl.items[1] == One(UpperCase(c) as int);
    assert cl.items[0] in cl.items && cl.items[1] in cl.items;
    assert !cl.negated && 'u' !in "";
  }

  lemma SameTextCut(s: string, t: string, i: nat)
    requires i <= |t|
    ensures SameText(s, t) <==> |s| >= i && SameText(s[..i], t[..i]) && SameText(s[i..], t[i..])
  {
    hide SameLetter;
    if |s| >= i && SameText(s[..i], t[..i]) && SameText(s[i..], t[i..]) {
      forall k | 0 <= k < |s| ensures SameLetter(s[k], t[k]) {
        if k < i { assert SameLetter(s[..i][k], t[..i][k]); } else { assert SameLetter(s[i..][k - i], t[i..][k - i]); }
      }
    }
  }

  predicate NoLetters(t: string) { forall i :: 0 <= i < |t| ==> !IsLetter(t[i]) }

  lemma FlushIn(n: nat, g: seq<Production>, chunk: string, s: string)
    requires NoLetters(chunk)
    ensures InSeq(n, g, PieceElements(Flush(chunk)), s) <==> SameText(s, chunk)
  {
    if chunk == "" {
      assert PieceElements(Flush(chunk)) == [];
    } else {
      assert PieceElements(Flush(chunk)) == [Term(chunk, true)];
      InSeqOne(n, g, Term(chunk, true), s);
    }
  }

  lemma LetterIn(n: nat, g: seq<Production>, c: char, s: string)
    requires IsLetter(c)
    ensures InSeq(n, g, PieceElements([Letter(c)]), s) <==> SameText(s, [c])
  {
    hide EmitClass, Holds, InSeq, LetterClass;
    var el := Regex(EmitClass(LetterClass(c)), "");
    LetterElement(c);
    InSeqOne(n, g, el, s);
    if |s| == 1 { LetterHolds(c, s[0]); }
  }

  lemma LetterElement(c: char)
    requires IsLetter(c)
    ensures PieceElements([Letter(c)]) == [Regex(EmitClass(LetterClass(c)), "")]
  {
  }

  lemma PieceElementsConcat(a: seq<Piece>, b: seq<Piece>)
    requires AllLetters(a) && AllLetters(b)
    ensures PieceElements(a + b) == PieceElements(a) + PieceElements(b)
  {
    hide PieceElement;
  }

  lemma SplitText(n: nat, g: seq<Production>, a: seq<Element>, b: seq<Element>, t: string, u: string, s: string)
    requires forall r :: InSeq(n, g, a, r) <==> SameText(r, t)
    requires forall r :: InSeq(n, g, b, r) <==> SameText(r, u)
    ensures InSeq(n, g, a + b, s) <==> SameText(s, t + u)
  {
    hide InSeq, SameText;
    InSeqConcat(n, g, a, b, s);
    assert (t + u)[..|t|] == t && (t + u)[|t|..] == u;
    SameTextCut(s, t + u, |t|);
    SameTextLength();
  }

  lemma SameTextLength()
    ensures forall s, t :: SameText(s, t) ==> |s| == |t|
  {
  }

  /** A folded literal matches what the literal matches without regard to case. */
  lemma {:induction false} PiecesIn(n: nat, g: seq<Production>, literal: string, chunk: string, s: string)
    requires NoLetters(chunk)
    ensures InSeq(n, g, PieceElements(Pieces(literal, chunk)), s) <==> SameText(s, chunk + literal)
    decreases |literal|
  {
    hide InSeq, SameText, PieceElement;
    if literal == "" {
      assert chunk + literal == chunk;
      FlushIn(n, g, chunk, s);
    } else if IsLetter(literal[0]) {
      var c, rest := literal[0], literal[1..];
      var front, tail := Flush(chunk), Pieces(rest, "");
      forall r ensures InSeq(n, g, PieceElements(front), r) <==> SameText(r, chunk) { FlushIn(n, g, chunk, r); }
      forall r ensures InSeq(n, g, PieceElements([Letter(c)]), r) <==> SameText(r, [c]) { LetterIn(n, g, c, r); }
      forall r ensures InSeq(n, g, PieceElements(tail), r) <==> SameText(r, rest) {
        PiecesIn(n, g, rest, "", r);
        assert "" + rest == rest;
      }
      PieceElementsConcat(front, [Letter(c)]);
      PieceElementsConcat(front + [Letter(c)], tail);
      forall r ensures InSeq(n, g, PieceElements(front + [Letter(c)]), r) <==> SameText(r, chunk + [c]) {
        SplitText(n, g, PieceElements(front), PieceElements([Letter(c)]), chunk, [c], r);
      }
      SplitText(n, g, PieceElements(front + [Letter(c)]), PieceElements(tail), chunk + [c], rest, s);
      assert chunk + [c] + rest == chunk + literal;
    } else {
      PiecesIn(n, g, literal[1..], chunk + [literal[0]], s);
      assert chunk + [literal[0]] + literal[1..] == chunk + literal;
    }
  }

  // ---- classes

  /** Of the characters in the Basic Multilingual Plane the pattern lists the same in either mode. */
  ghost predicate ReadsAlike(pattern: string) {
    forall ch: char :: ch as int <= 0xFFFF ==> (Holds(pattern, "u", ch) <==> Holds(pattern, "", ch))
  }

  /** Flags under which a class means what the renderer's spelling of it means: Unicode mode, or
      nothing past the Basic Multilingual Plane to match in it and no other reading without it. */
  ghost predicate FlagsFit(pattern: string, flags: string) {
    'u' in flags || (ReadsAlike(pattern) && forall ch: char :: Holds(pattern, "u", ch) ==> ch as int <= 0xFFFF)
  }

  /** Only `\u{` and characters past the Basic Multilingual Plane are read otherwise without
      Unicode mode; for any other pattern the flags fit exactly when it matches nothing past it. */
  lemma PlainFlagsFit(pattern: string, flags: string)
    requires pattern == ANY_PATTERN || Legacy(pattern) == pattern
    ensures FlagsFit(pattern, flags) <==> 'u' in flags || forall ch: char :: Holds(pattern, "u", ch) ==> ch as int <= 0xFFFF
  {
    hide ReadClassPattern, Legacy, InItems;
    assert "u"[0] == 'u' && 'u' !in "";
  }

  lemma InTightItems(its: seq<Item>, cp: int)
    ensures InItems(TightItems(its), cp) <==> InItems(its, cp)
  {
    var ts := TightItems(its);
    assert forall i :: 0 <= i < |its| ==> ts[i] in ts && its[i] in its && Lo(ts[i]) == Lo(its[i]) && Hi(ts[i]) == Hi(its[i]);
    if InItems(ts, cp) {
      var i :| 0 <= i < |ts| && Lo(ts[i]) <= cp <= Hi(ts[i]);
      assert its[i] in its;
    }
    if InItems(its, cp) {
      var i :| 0 <= i < |its| && Lo(its[i]) <= cp <= Hi(its[i]);
      assert ts[i] in ts;
    }
  }

  /** A class not in Unicode mode, by the decoder's own rule, matches nothing past U+FFFF. */
  lemma DecodedFlagsFit(c: Class)
    requires ScalarClass(c)
    ensures FlagsFit(EmitClass(c), FlagsFor(c))
    ensures FlagsFor(c) == "" ==> forall ch: char :: ClassHolds(c, true, ch) ==> ch as int <= 0xFFFF
  {
    hide EmitClass, ReadClassPattern, Legacy;
    EmittedReadsBack(c);
    ClassPattern(EmitClass(c));
    assert "u"[0] == 'u';
    if FlagsFor(c) == "" {
      EmittedLegacy(c);
      PlainFlagsFit(EmitClass(c), "");
      forall ch: char | ClassHolds(c, true, ch) ensures ch as int <= 0xFFFF {
        var it :| it in c.items && Lo(it) <= ch as int <= Hi(it);
        assert !Astral(c.items);
      }
    }
  }

  /** The class that is read back matches the same characters, exactly when the flags fit. */
  lemma ClassKept(pattern: string, flags: string)
    requires pattern != ANY_PATTERN && ReadClassPattern(pattern).Some? && ScalarClass(ReadClassPattern(pattern).value)
    ensures var t := TightClass(ReadClassPattern(pattern).value);
            (forall ch :: Holds(EmitClass(t), FlagsFor(t), ch) <==> Holds(pattern, flags, ch)) <==> FlagsFit(pattern, flags)
  {
    hide EmitClass, ReadClassPattern, InItems, Legacy;
    var c := ReadClassPattern(pattern).value;
    var t := TightClass(c);
    ClassPattern(pattern);
    DecodedFlagsFit(t);
    assert "u"[0] == 'u' && 'u' !in "";
    forall ch: char ensures Holds(EmitClass(t), FlagsFor(t), ch) <==> Holds(pattern, "u", ch) {
      InTightItems(c.items, ch as int);
      EmittedHolds(t, ch);
      assert ClassHolds(t, true, ch) <==> ClassHolds(c, true, ch);
    }
    SameMode(pattern, flags);
  }

  /** `u` is the only flag with a meaning here, and without it nothing past U+FFFF is matched. */
  lemma SameMode(pattern: string, flags: string)
    ensures forall ch: char :: Holds(pattern, flags, ch) <==> Holds(pattern, if 'u' in flags then "u" else "", ch)
    ensures 'u' !in flags ==> forall ch: char :: Holds(pattern, flags, ch) ==> ch as int <= 0xFFFF
  {
    hide ReadClassPattern, InItems, Legacy;
    assert "u"[0] == 'u' && 'u' !in "";
  }

  /** `.` matches the same characters, exactly when the flags fit. */
  lemma AnyKept(flags: string)
    ensures (forall ch :: Holds(ANY_PATTERN, "u", ch) <==> Holds(ANY_PATTERN, flags, ch)) <==> FlagsFit(ANY_PATTERN, flags)
  {
  }

  // ---- what the language is kept for

  ghost predicate Fit(el: Element)
    decreases el, 0
  {
    match el
    case Regex(pattern, flags) => FlagsFit(pattern, flags)
    case Group(alts) => FitAlts(alts)
    case Opt(inner) => Fit(inner)
    case Star(inner) => Fit(inner)
    case Plus(inner) => Fit(inner)
    case Rep(_, _, inner) => Fit(inner)
    case _ => true
  }

  ghost predicate FitSeq(els: seq<Element>)
    decreases els, 1
  {
    els == [] || (Fit(els[0]) && FitSeq(els[1..]))
  }

  ghost predicate FitAlts(alts: seq<Sequence>)
    decreases alts, 2
  {
    alts == [] || (FitSeq(alts[0].els) && FitAlts(alts[1..]))
  }

  ghost predicate FitProds(ps: seq<Production>) {
    ps == [] || (FitAlts(ps[0].alts) && FitProds(ps[1..]))
  }

  /** Alternatives the renderer writes, and writes faithfully. */
  ghost predicate Kept(cased: char -> bool, alts: seq<Sequence>, rule: string) {
    RenderAltTexts(cased, alts, rule).Ok? && SaneAlts(alts) && FitAlts(alts)
  }

  ghost predicate AllKept(cased: char -> bool, g: seq<Production>) {
    RenderLines(cased, g).Ok? && SaneProds(g) && FitProds(g)
  }

  lemma {:induction false} BodyKept(cased: char -> bool, g: seq<Production>, name: string)
    requires AllKept(cased, g)
    ensures Body(NormProds(g), name) == NormAlts(Body(g, name))
    ensures name in Names(g) ==> Kept(cased, Body(g, name), name)
    ensures name !in Names(g) ==> Body(g, name) == []
  {
    hide RenderAltTexts, SaneAlts, FitAlts, NormAlts, Join;
    if g == [] {
      assert NormAlts([]) == [];
    } else {
      assert NormProds(g)[1..] == NormProds(g[1..]);
      assert Names(g)[0] == g[0].name;
      assert forall i :: 0 < i < |g| ==> Names(g)[i] == Names(g[1..])[i - 1];
      BodyKept(cased, g[1..], name);
    }
  }

  lemma TermIn(n: nat, g: seq<Production>, literal: string, caseSensitive: bool, s: string)
    ensures InSeq(n, g, NormOf(Term(literal, caseSensitive)), s) <==> In(n, g, Term(literal, caseSensitive), s)
  {
    if literal == "" {
    } else if caseSensitive {
      InSeqOne(n, g, Term(literal, true), s);
    } else {
      PiecesIn(n, g, literal, "", s);
      assert "" + literal == literal;
    }
  }

  lemma RegexIn(n: nat, g: seq<Production>, pattern: string, flags: string, s: string)
    requires Sane(Regex(pattern, flags)) && FlagsFit(pattern, flags)
    requires pattern == ANY_PATTERN || ReadClassPattern(pattern).Some?
    ensures InSeq(n, g, NormOf(Regex(pattern, flags)), s) <==> In(n, g, Regex(pattern, flags), s)
  {
    hide EmitClass, ReadClassPattern, Holds, FlagsFor, FlagsFit;
    InSeqOne(n, g, NormOf(Regex(pattern, flags))[0], s);
    if pattern == ANY_PATTERN { AnyKept(flags); } else { ClassKept(pattern, flags); }
  }

  /** The normal form of an element matches what the element matches. */
  lemma {:induction false} NormIn(cased: char -> bool, rule: string, n: nat, g: seq<Production>, el: Element, s: string)
    requires AllKept(cased, g) && RenderElement(cased, el, rule).Ok? && Sane(el) && Fit(el)
    ensures InSeq(n, NormProds(g), NormOf(el), s) <==> In(n, g, el, s)
    decreases n, el, 1
  {
    hide InSeq, InTimes, InCount, AllKept, EmitClass, ReadClassPattern, FlagsFit, Holds, FlagsFor, ApplyOp, QuoteLiteral, Join,
      OpText, ClassText, InsensitiveFragments, SameText, Body, NormProds;
    var h := NormProds(g);
    match el
    case Term(literal, caseSensitive) => TermIn(n, h, literal, caseSensitive, s);
    case Ref(name) =>
      InSeqOne(n, h, el, s);
      if n > 0 {
        BodyKept(cased, g, name);
        if name in Names(g) {
          NormInAlts(cased, name, n - 1, g, Body(g, name), s);
        } else {
        }
      }
    case Regex(pattern, flags) => RegexIn(n, h, pattern, flags, s);
    case Group(alts) =>
      InSeqOne(n, h, Group(NormAlts(alts)), s);
      NormInAlts(cased, rule, n, g, alts, s);
    case TokTerm(_, _) =>
    case TokenRef(_) =>
    case Prose(_) =>
    case _ => NormInOp(cased, rule, n, g, el, s);
  }

  lemma OperatorParts(cased: char -> bool, el: Element, rule: string)
    requires el.Opt? || el.Star? || el.Plus? || el.Rep?
    requires RenderElement(cased, el, rule).Ok? && Sane(el) && Fit(el)
    ensures RenderElement(cased, el.inner, rule).Ok? && Sane(el.inner) && Fit(el.inner)
    ensures ApplyOp(Whole(NormOf(el.inner)), OperatorOf(el)).Some?
    ensures NormOf(el) == [ApplyOp(Whole(NormOf(el.inner)), OperatorOf(el)).value]
  {
    hide OpText;
  }

  lemma {:induction false} NormInOp(cased: char -> bool, rule: string, n: nat, g: seq<Production>, el: Element, s: string)
    requires el.Opt? || el.Star? || el.Plus? || el.Rep?
    requires AllKept(cased, g) && RenderElement(cased, el, rule).Ok? && Sane(el) && Fit(el)
    ensures InSeq(n, NormProds(g), NormOf(el), s) <==> In(n, g, el, s)
    decreases n, el, 0
  {
    hide In, InSeq, InTimes, InCount, AllKept, RenderElement, NormOf, ApplyOp, Sane, Fit, NormProds, Whole;
    var h := NormProds(g);
    OperatorParts(cased, el, rule);
    var inner, whole := el.inner, Whole(NormOf(el.inner));
    forall t ensures In(n, h, whole, t) <==> In(n, g, inner, t) {
      NormIn(cased, rule, n, g, inner, t);
      WholeIn(n, h, NormOf(inner), t);
    }
    InSeqOne(n, h, ApplyOp(whole, OperatorOf(el)).value, s);
    AppliedIn(n, h, el, whole, s);
    CountSame(n, h, g, whole, inner, LeastOf(el), MostOf(el), s);
    CountedIn(n, g, el, s);
  }

  lemma {:induction false} NormInSeq(cased: char -> bool, rule: string, n: nat, g: seq<Production>, els: seq<Element>, s: string)
    requires AllKept(cased, g) && RenderParts(cased, els, rule).Ok? && SaneSeq(els) && FitSeq(els)
    ensures InSeq(n, NormProds(g), NormSeq(els), s) <==> InSeq(n, g, els, s)
    decreases n, els, 1
  {
    hide In, AllKept, RenderElement, NormOf, Sane, Fit, NormProds;
    if els != [] {
      var h := NormProds(g);
      forall i | 0 <= i <= |s|
        ensures InSeq(n, h, NormOf(els[0]), s[..i]) <==> In(n, g, els[0], s[..i])
        ensures InSeq(n, h, NormSeq(els[1..]), s[i..]) <==> InSeq(n, g, els[1..], s[i..])
      {
        NormIn(cased, rule, n, g, els[0], s[..i]);
        NormInSeq(cased, rule, n, g, els[1..], s[i..]);
      }
      InSeqConcat(n, h, NormOf(els[0]), NormSeq(els[1..]), s);
    }
  }

  lemma {:induction false} NormInAlts(cased: char -> bool, rule: string, n: nat, g: seq<Production>, alts: seq<Sequence>, s: string)
    requires AllKept(cased, g) && Kept(cased, alts, rule)
    ensures InAlts(n, NormProds(g), NormAlts(alts), s) <==> InAlts(n, g, alts, s)
    decreases n, alts, 2
  {
    hide InSeq, AllKept, RenderParts, NormSeq, SaneSeq, FitSeq, NormProds, Join;
    assert NormAlts(alts)[1..] == NormAlts(alts[1..]);
    NormInSeq(cased, rule, n, g, alts[0].els, s);
    if |alts| > 1 {
      NormInAlts(cased, rule, n, g, alts[1..], s);
    } else {
      assert alts[1..] == [] && NormAlts([]) == [];
    }
  }

  // ---- the added root

  predicate Captured(el: Element) { el == Ref(ROOT) }

  /** The grammar has no `root` and refers to it: the added rule captures the reference. */
  predicate Captures(ps: seq<Production>) { ROOT !in Names(ps) && FindProds(ps, Captured).Some? }

  lemma {:induction false} BodyFree(ps: seq<Production>, p: Element -> bool, name: string)
    requires FindProds(ps, p).None?
    ensures FindAlts(Body(ps, name), p).None?
  {
    hide FindAlts;
    if ps != [] { BodyFree(ps[1..], p, name); } else { NothingFound(p); }
  }

  /** A grammar to which `root` is added, and which does not refer to it. */
  ghost predicate Extends(g: seq<Production>, ps: seq<Production>) {
    && g != [] && g[0].name == ROOT && g[1..] == ps
    && FindProds(ps, Captured).None?
  }

  /** Where nothing refers to `root`, the added rule changes nothing else. */
  lemma {:induction false} ExtendedIn(n: nat, g: seq<Production>, ps: seq<Production>, el: Element, s: string)
    requires Extends(g, ps) && Find(el, Captured).None?
    ensures In(n, g, el, s) <==> In(n, ps, el, s)
    decreases n, el, 1
  {
    hide InTimes, Holds, SameText, FindProds;
    match el
    case Ref(name) =>
      assert !Captured(el);
      if n > 0 {
        BodyFree(ps, Captured, name);
        ExtendedInAlts(n - 1, g, ps, Body(ps, name), s);
      }
    case Group(alts) => ExtendedInAlts(n, g, ps, alts, s);
    case Opt(_) => ExtendedInOp(n, g, ps, el, s);
    case Star(_) => ExtendedInOp(n, g, ps, el, s);
    case Plus(_) => ExtendedInOp(n, g, ps, el, s);
    case Rep(_, _, _) => ExtendedInOp(n, g, ps, el, s);
    case _ =>
  }

  lemma InnerFound(el: Element)
    requires (el.Opt? || el.Star? || el.Plus? || el.Rep?) && Find(el, Captured).None?
    ensures Find(el.inner, Captured).None?
  {
  }

  lemma {:induction false} ExtendedInOp(n: nat, g: seq<Production>, ps: seq<Production>, el: Element, s: string)
    requires Extends(g, ps) && Find(el, Captured).None? && (el.Opt? || el.Star? || el.Plus? || el.Rep?)
    ensures In(n, g, el, s) <==> In(n, ps, el, s)
    decreases n, el, 0
  {
    hide In, InCount, Extends, Find;
    InnerFound(el);
    forall t ensures In(n, g, el.inner, t) <==> In(n, ps, el.inner, t) { ExtendedIn(n, g, ps, el.inner, t); }
    CountSame(n, g, ps, el.inner, el.inner, LeastOf(el), MostOf(el), s);
    CountedIn(n, g, el, s);
    CountedIn(n, ps, el, s);
  }

  lemma {:induction false} ExtendedInSeq(n: nat, g: seq<Production>, ps: seq<Production>, els: seq<Element>, s: string)
    requires Extends(g, ps) && FindSeq(els, Captured).None?
    ensures InSeq(n, g, els, s) <==> InSeq(n, ps, els, s)
    decreases n, els, 2
  {
    hide In, Extends, Find;
    if els != [] {
      forall i | 0 <= i <= |s|
        ensures In(n, g, els[0], s[..i]) <==> In(n, ps, els[0], s[..i])
        ensures InSeq(n, g, els[1..], s[i..]) <==> InSeq(n, ps, els[1..], s[i..])
      {
        ExtendedIn(n, g, ps, els[0], s[..i]);
        ExtendedInSeq(n, g, ps, els[1..], s[i..]);
      }
    }
  }

  lemma {:induction false} ExtendedInAlts(n: nat, g: seq<Production>, ps: seq<Production>, alts: seq<Sequence>, s: string)
    requires Extends(g, ps) && FindAlts(alts, Captured).None?
    ensures InAlts(n, g, alts, s) <==> InAlts(n, ps, alts, s)
    decreases n, alts, 3
  {
    hide InSeq, Extends, FindSeq;
    if alts != [] {
      ExtendedInSeq(n, g, ps, alts[0].els, s);
      ExtendedInAlts(n, g, ps, alts[1..], s);
    }
  }

  /** The added rule stands for the start rule, one reference further on. */
  lemma RootIn(n: nat, g: seq<Production>, start: string, s: string)
    requires g != [] && g[0] == RootFor(start)
    ensures In(n, g, Ref(ROOT), s) <==> n > 0 && In(n - 1, g, Ref(start), s)
  {
    hide InSeq;
    if n > 0 {
      var alts := Body(g, ROOT);
      assert alts == [Sequence([Ref(start)])] && alts[1..] == [];
      assert !InAlts(n - 1, g, [], s);
      assert InAlts(n - 1, g, alts, s) <==> InSeq(n - 1, g, alts[0].els, s);
      InSeqOne(n - 1, g, Ref(start), s);
    }
  }

  // ---- the theorem

  /** The rule a rendered grammar is read from. */
  function EntryOf(ps: seq<Production>, start: Option<string>): (s: string)
    requires ps != []
  {
    if ROOT in Names(ps) then ROOT else StartOf(ps, start)
  }

  lemma FewerFound(ps: seq<Production>, p: Element -> bool, q: Element -> bool)
    requires FindProds(ps, p).None? && forall el :: q(el) ==> p(el)
    ensures FindProds(ps, q).None?
  {
    FindProdsExact(ps, p);
    FindProdsExact(ps, q);
    hide FindProds, WithinProds;
  }

  lemma RootNames(ps: seq<Production>, start: string)
    ensures var g := [RootFor(start)] + ps;
            g[1..] == ps && forall name :: name in Names(g) <==> name == ROOT || name in Names(ps)
  {
    var g := [RootFor(start)] + ps;
    assert Names(g)[0] == ROOT;
    assert forall i :: 0 <= i < |ps| ==> Names(g)[i + 1] == Names(ps)[i];
  }

  lemma RootFound(start: string, p: Element -> bool)
    requires !p(Ref(start))
    ensures FindAlts(RootFor(start).alts, p).None?
  {
    var alts := RootFor(start).alts;
    FindSeqOne(Ref(start), p);
    assert alts[1..] == [] && FindAlts([], p) == None;
  }

  /** A grammar's references resolve exactly when those of the rooted grammar do and none is
      captured. */
  lemma RootedResolves(ps: seq<Production>, start: Option<string>)
    requires ps != [] && (ROOT in Names(ps) || StartOf(ps, start) in Names(ps))
    ensures Resolved(ps) <==> Resolved(Rooted(ps, start)) && !Captures(ps)
  {
    hide FindAlts;
    if ROOT !in Names(ps) {
      var from := StartOf(ps, start);
      var g := [RootFor(from)] + ps;
      var was := (el: Element) => Dangles(Names(ps), el);
      var now := (el: Element) => Dangles(Names(g), el);
      RootNames(ps, from);
      RootFound(from, now);
      if Resolved(ps) {
        FewerFound(ps, was, now);
        FewerFound(ps, was, Captured);
      }
      if Resolved(g) && FindProds(ps, Captured).None? { EitherFound(ps, now, Captured, was); }
    }
  }

  lemma EitherFound(ps: seq<Production>, p: Element -> bool, q: Element -> bool, r: Element -> bool)
    requires FindProds(ps, p).None? && FindProds(ps, q).None? && forall el :: r(el) ==> p(el) || q(el)
    ensures FindProds(ps, r).None?
  {
    FindProdsExact(ps, p);
    FindProdsExact(ps, q);
    FindProdsExact(ps, r);
    hide FindProds, WithinProds;
  }

  /** Adding `root` changes what a reference of the grammar stands for exactly when the grammar has
      no `root` and refers to it. */
  lemma RootCaptures(ps: seq<Production>, start: Option<string>)
    requires ps != []
    ensures (forall name :: WithinProds(Ref(name), ps) ==> Body(Rooted(ps, start), name) == Body(ps, name)) <==> !Captures(ps)
  {
    FindProdsExact(ps, Captured);
    hide WithinProds, FindProds;
    if ROOT !in Names(ps) {
      NoBody(ps, ROOT);
      var g := Rooted(ps, start);
      assert g[1..] == ps;
      assert forall name :: name != ROOT ==> Body(g, name) == Body(ps, name);
    }
  }

  lemma {:induction false} NoBody(ps: seq<Production>, name: string)
    ensures name !in Names(ps) ==> Body(ps, name) == []
  {
    if ps != [] {
      assert Names(ps)[0] == ps[0].name;
      assert forall i :: 0 < i < |ps| ==> Names(ps)[i] == Names(ps[1..])[i - 1];
      NoBody(ps[1..], name);
    }
  }

  lemma RootAlone(start: string)
    ensures SaneAlts(RootFor(start).alts) && FitAlts(RootFor(start).alts)
  {
    var alts := RootFor(start).alts;
    var els := alts[0].els;
    assert alts[1..] == [] && els[1..] == [];
    assert FitSeq([]) && SaneSeq([]) && FitAlts([]);
    assert Fit(els[0]) && Sane(els[0]);
  }

  lemma RenderedStart(cased: char -> bool, ps: seq<Production>, start: Option<string>)
    requires RenderGbnf(cased, ps, start).Ok?
    ensures ps != [] && (ROOT in Names(ps) || StartOf(ps, start) in Names(ps))
  {
    hide RenderLines, Join, CheckNames;
  }

  lemma RootedKept(ps: seq<Production>, start: Option<string>)
    ensures SaneProds(Rooted(ps, start)) <==> SaneProds(ps)
    ensures FitProds(Rooted(ps, start)) <==> FitProds(ps)
  {
    hide SaneAlts, FitAlts;
    if ps != [] && ROOT !in Names(ps) {
      var g := Rooted(ps, start);
      assert g[0] == RootFor(StartOf(ps, start)) && g[1..] == ps;
      RootAlone(StartOf(ps, start));
    }
  }

  /** Where the grammar does not refer to a `root` it lacks, the added rule stands for the start rule
      and changes nothing else. */
  lemma RootedAccepts(ps: seq<Production>, start: Option<string>, s: string)
    requires ps != [] && (ROOT in Names(ps) || StartOf(ps, start) in Names(ps)) && !Captures(ps)
    ensures Accepts(Rooted(ps, start), ROOT, s) <==> Accepts(ps, EntryOf(ps, start), s)
  {
    hide In, FindProds;
    var g := Rooted(ps, start);
    if ROOT !in Names(ps) {
      var from := StartOf(ps, start);
      assert Extends(g, ps);
      forall n: nat ensures In(n, g, Ref(from), s) <==> In(n, ps, Ref(from), s) { StartIn(n, g, ps, from, s); }
      forall n: nat ensures In(n + 1, g, Ref(ROOT), s) <==> In(n, g, Ref(from), s) { RootIn(n + 1, g, from, s); }
      RootIn(0, g, from, s);
      if Accepts(g, ROOT, s) {
        var n: nat :| In(n, g, Ref(ROOT), s);
        RootIn(n, g, from, s);
        assert In(n - 1, ps, Ref(from), s);
      }
    }
  }

  lemma StartIn(n: nat, g: seq<Production>, ps: seq<Production>, from: string, s: string)
    requires Extends(g, ps) && from in Names(ps) && ROOT !in Names(ps)
    ensures In(n, g, Ref(from), s) <==> In(n, ps, Ref(from), s)
  {
    hide In, Extends;
    assert !Captured(Ref(from));
    ExtendedIn(n, g, ps, Ref(from), s);
  }

  lemma NormAccepts(cased: char -> bool, g: seq<Production>, rule: string, s: string)
    requires AllKept(cased, g) && LegalName(rule)
    ensures Accepts(NormProds(g), rule, s) <==> Accepts(g, rule, s)
  {
    hide In, InSeq, AllKept, NormProds, LegalName;
    forall n: nat ensures In(n, NormProds(g), Ref(rule), s) <==> In(n, g, Ref(rule), s) {
      NormIn(cased, rule, n, g, Ref(rule), s);
      InSeqOne(n, NormProds(g), Ref(rule), s);
    }
  }

  /** The grammar that is written is the grammar that is read: where the rooted grammar is carried
      and its flags fit, the text means from `root` what the rooted grammar does. */
  lemma RootedLanguage(cased: char -> bool, ps: seq<Production>, start: Option<string>, s: string)
    requires RenderGbnf(cased, ps, start).Ok? && Carried(Rooted(ps, start)) && FitProds(Rooted(ps, start))
    ensures var back := ParseGbnf(false, RenderGbnf(cased, ps, start).value);
            back.Ok? && (Accepts(back.value, ROOT, s) <==> Accepts(Rooted(ps, start), ROOT, s))
  {
    hide RenderGbnf, ParseGbnf, NormProds, SaneProds, Resolved, FitProds, Accepts, RenderLines, LegalName;
    RenderedLines(cased, ps, start);
    RoundTripExact(cased, ps, start);
    RootLegal();
    NormAccepts(cased, Rooted(ps, start), ROOT, s);
  }

  /** Faithful: where the renderer answers, every reference names a rule, alternatives exist, bounds
      do not cross, classes name characters and their flags fit, the text is read, and accepts from
      `root` exactly the strings the original accepts from its own entry rule. */
  lemma LanguageKept(cased: char -> bool, ps: seq<Production>, start: Option<string>, s: string)
    requires RenderGbnf(cased, ps, start).Ok? && SaneProds(ps) && Resolved(ps) && FitProds(ps)
    ensures ps != [] && ParseGbnf(false, RenderGbnf(cased, ps, start).value).Ok?
    ensures Accepts(ParseGbnf(false, RenderGbnf(cased, ps, start).value).value, ROOT, s) <==>
            Accepts(ps, EntryOf(ps, start), s)
  {
    hide RenderGbnf, ParseGbnf, SaneProds, Resolved, FitProds, Accepts, RenderLines, Captures;
    RenderedStart(cased, ps, start);
    RootedResolves(ps, start);
    RootedKept(ps, start);
    RootedLanguage(cased, ps, start, s);
    RootedAccepts(ps, start, s);
  }
}
