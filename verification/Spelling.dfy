/** Terminals spelled back: literals and classes as the renderer writes them, and emitted class
    patterns as it reads them. Each spelling is the inverse of its reader. */
module Spelling {
  import opened Text
  import opened Terminals

  // ---- spelling one character

  function SimpleSpelling(c: char): (s: string) {
    match c
    case '\n' => "\\n"
    case '\r' => "\\r"
    case '\t' => "\\t"
    case _ => ""
  }

  predicate Control(cp: int) { cp < 0x20 || 0x7F <= cp <= 0x9F }

  /** One character of a string literal. */
  function LiteralChar(c: char): (s: string)
    ensures s != ""
  {
    if c == '"' then "\\\""
    else if c == '\\' then "\\\\"
    else if SimpleSpelling(c) != "" then SimpleSpelling(c)
    else if Control(c as int) then "\\x" + FixedHex(c as int, 2, true)
    else [c]
  }

  function LiteralChars(text: string): (s: string) {
    if text == "" then "" else LiteralChar(text[0]) + LiteralChars(text[1..])
  }

  function QuoteLiteral(text: string): (s: string) { "\"" + LiteralChars(text) + "\"" }

  /** One member of a class. A surrogate has no spelling here, and vanishes. */
  function ClassChar(cp: int): (s: string)
    requires 0 <= cp
    ensures IsScalar(cp) ==> s != ""
  {
    if 0xFFFF < cp then "\\U" + FixedHex(cp, 8, true)
    else if IsSurrogate(cp) then ""
    else
      var c := cp as char;
      if c == ']' then "\\]"
      else if c == '[' then "\\["
      else if c == '\\' then "\\\\"
      else if c == '-' then "\\u002D"
      else if c == '^' then "\\u005E"
      else if SimpleSpelling(c) != "" then SimpleSpelling(c)
      else if Control(cp) then "\\x" + FixedHex(cp, 2, true)
      else [c]
  }

  lemma ReadHexEscape(mark: char, cp: nat, t: string)
    requires (mark == 'x' && cp < 0x100) || (mark == 'u' && cp < 0x10000) || (mark == 'U' && cp <= MAX_CP)
    ensures var s := ['\\', mark] + FixedHex(cp, HexEscape(mark), true);
            ReadChar(s + t) == Some(Read(cp, |s|))
  {
    HexPowers();
    var w := HexEscape(mark);
    var all := ['\\', mark] + FixedHex(cp, w, true) + t;
    assert all[2..2 + w] == FixedHex(cp, w, true);
    FixedHexReads(cp, w, true);
  }

  lemma ReadLiteralChar(c: char, t: string)
    ensures ReadChar(LiteralChar(c) + t) == Some(Read(c as int, |LiteralChar(c)|))
  {
    if c != '"' && c != '\\' && SimpleSpelling(c) == "" && Control(c as int) {
      assert "\\x" == ['\\', 'x'];
      ReadHexEscape('x', c as int, t);
    }
  }

  lemma ReadFourHex(hex: string, t: string)
    requires |hex| == 4 && AllHex(hex)
    ensures ReadChar("\\u" + hex + t) == Some(Read(ParseHex(hex), 6)) || ParseHex(hex) > MAX_CP
  {
    hide ParseHex;
    var all := "\\u" + hex + t;
    assert all[2..6] == hex;
  }

  lemma ReadClassChar(cp: int, t: string)
    requires IsScalar(cp)
    ensures ReadChar(ClassChar(cp) + t) == Some(Read(cp, |ClassChar(cp)|))
    ensures ClassChar(cp)[0] != '-' && ClassChar(cp)[0] != '^'
  {
    if 0xFFFF < cp {
      hide ReadChar;
      assert "\\U" == ['\\', 'U'];
      ReadHexEscape('U', cp, t);
    } else if Control(cp) && SimpleSpelling(cp as char) == "" {
      hide ReadChar;
      assert "\\x" == ['\\', 'x'];
      ReadHexEscape('x', cp, t);
    } else if cp == '-' as int || cp == '^' as int {
      HyphenAndCaret();
      ReadFourHex(if cp == '-' as int then "002D" else "005E", t);
      assert ClassChar(cp) == "\\u" + if cp == '-' as int then "002D" else "005E";
    } else {
      ReadPlainClassChar(cp as char, t);
    }
  }

  lemma ReadPlainClassChar(c: char, t: string)
    requires c != '-' && c != '^' && c as int <= 0xFFFF
    requires Control(c as int) ==> SimpleSpelling(c) != ""
    ensures ReadChar(ClassChar(c as int) + t) == Some(Read(c as int, |ClassChar(c as int)|))
    ensures ClassChar(c as int)[0] != '-' && ClassChar(c as int)[0] != '^'
  {
  }

  lemma HyphenAndCaret()
    ensures ParseHex("002D") == 0x2D && ParseHex("005E") == 0x5E
  {
    assert ParseHex("0") == 0 by { assert "0"[..0] == ""; }
    assert ParseHex("00") == 0 by { assert "00"[..1] == "0"; }
    assert ParseHex("002") == 2 by { assert "002"[..2] == "00"; }
    assert ParseHex("005") == 5 by { assert "005"[..2] == "00"; }
    assert ParseHex("002D") == 0x2D by { assert "002D"[..3] == "002"; }
    assert ParseHex("005E") == 0x5E by { assert "005E"[..3] == "005"; }
  }

  /** A quoted literal denotes the text it was written from. */
  lemma {:induction false} DecodeQuoted(text: string)
    ensures DecodeTail(LiteralChars(text) + "\"") == Some(text)
    ensures DecodeString(QuoteLiteral(text)) == Some(text)
  {
    var body := LiteralChars(text) + "\"";
    assert QuoteLiteral(text)[1..] == body;
    if text != "" {
      var rest := LiteralChars(text[1..]) + "\"";
      Assoc(LiteralChar(text[0]), LiteralChars(text[1..]), "\"");
      ReadLiteralChar(text[0], rest);
      assert body[|LiteralChar(text[0])|..] == rest;
      DecodeQuoted(text[1..]);
      assert text == [text[0]] + text[1..];
    }
  }

  // ---- reading an emitted pattern

  /** The number a run of digits names to Rust's `u32::from_str_radix`: a leading `+` is allowed. */
  function ParseU32(s: string): (r: Option<nat>) {
    var digits := if |s| > 1 && s[0] == '+' then s[1..] else s;
    if digits == "" || !AllHex(digits) || ParseHex(digits) >= 0x1_0000_0000 then None
    else Some(ParseHex(digits))
  }

  function CloseAt(t: string): (k: nat)
    ensures k <= |t| && (k < |t| ==> t[k] == '}')
  {
    RunLength(t, c => c != '}')
  }

  predicate AsciiAlnum(c: char) {
    '0' <= c <= '9' || 'a' <= c <= 'z' || 'A' <= c <= 'Z'
  }

  function PatternEscape(mark: char): (c: Option<char>) {
    match mark
    case 'n' => Some('\n')
    case 'r' => Some('\r')
    case 't' => Some('\t')
    case 'f' => Some('\U{C}')
    case 'v' => Some('\U{B}')
    case '0' => Some('\0')
    case _ => if AsciiAlnum(mark) then None else Some(mark)
  }

  /** The member character a pattern's `t` starts with. */
  function ReadOne(t: string): (r: Option<Read>)
    ensures r.Some? ==> 1 <= r.value.len <= |t| && 0 <= r.value.cp
  {
    if t == "" then None
    else if t[0] != '\\' then Some(Read(t[0] as int, 1))
    else if |t| == 1 then None
    else if t[1] == 'u' && |t| > 2 && t[2] == '{' then
      var k := CloseAt(t[3..]);
      if 3 + k == |t| then None
      else match ParseU32(t[3..3 + k])
        case None => None
        case Some(cp) => Some(Read(cp, 4 + k))
    else if t[1] == 'u' then
      if |t| < 6 || !AllHex(t[2..6]) then None else Some(Read(ParseHex(t[2..6]), 6))
    else if t[1] == 'x' then
      if |t| < 4 || !AllHex(t[2..4]) then None else Some(Read(ParseHex(t[2..4]), 4))
    else match PatternEscape(t[1])
      case None => None
      case Some(c) => Some(Read(c as int, 2))
  }

  /** The member a pattern's `t` starts with. The source records a lone `x` as the pair `x`, `x`:
      `Lo` and `Hi` of this item. */
  function ReadPatternItem(t: string): (r: Option<(Item, nat)>)
    ensures r.Some? ==> 1 <= r.value.1 <= |t| && Named(r.value.0)
  {
    match ReadOne(t)
    case None => None
    case Some(Read(lo, n)) =>
      if n + 2 < |t| && t[n] == '-' then
        match ReadOne(t[n + 1..])
        case None => None
        case Some(Read(hi, m)) => if hi < lo then None else Some((Range(lo, hi), n + 1 + m))
      else Some((One(lo), n))
  }

  function ReadPatternItems(t: string): (r: Option<seq<Item>>)
    ensures r.Some? ==> AllNamed(r.value)
    decreases |t|
  {
    if |t| <= 1 then Some([])
    else match ReadPatternItem(t)
      case None => None
      case Some((it, n)) => Prepend([it], ReadPatternItems(t[n..]))
  }

  /** The class a pattern spells, when it spells one. */
  function ReadClassPattern(pattern: string): (r: Option<Class>)
    ensures r.Some? ==> AllNamed(r.value.items) && r.value.items != []
  {
    if |pattern| < 2 || pattern[0] != '[' || pattern[|pattern| - 1] != ']' then None
    else
      var negated := pattern[1] == '^';
      match ReadPatternItems(if negated then pattern[2..] else pattern[1..])
      case None => None
      case Some(items) => if items == [] then None else Some(Class(negated, items))
  }

  /** The ends of a member, as the pair the source keeps. */
  function Ends(it: Item): (e: (int, int)) { (Lo(it), Hi(it)) }

  function AllEnds(its: seq<Item>): (es: seq<(int, int)>)
    ensures |es| == |its| && forall i :: 0 <= i < |its| ==> es[i] == Ends(its[i])
  {
    seq(|its|, i requires 0 <= i < |its| => Ends(its[i]))
  }

  /** One turn of the pattern reader: the pair it pushes, and the cursor past it. */
  method ReadPatternMember(pattern: string, i: nat) returns (ok: bool, pair: (int, int), next: nat)
    requires i < |pattern|
    ensures ok == ReadPatternItem(pattern[i..]).Some?
    ensures ok ==> var (it, n) := ReadPatternItem(pattern[i..]).value; pair == Ends(it) && next == i + n
  {
    hide ReadOne;
    ok, pair, next := false, (0, 0), i;
    var lo := ReadOne(pattern[i..]);
    if lo.None? { return; }
    next := i + lo.value.len;
    if next + 2 < |pattern| && pattern[next] == '-' {
      assert pattern[i..][lo.value.len + 1..] == pattern[next + 1..];
      var hi := ReadOne(pattern[next + 1..]);
      if hi.None? || hi.value.cp < lo.value.cp { return; }
      ok, pair, next := true, (lo.value.cp, hi.value.cp), next + 1 + hi.value.len;
    } else {
      ok, pair := true, (lo.value.cp, lo.value.cp);
    }
  }

  /** The pattern reader as it runs: a cursor over the pattern, pushing one pair a member. */
  method ReadClassPatternLoop(pattern: string) returns (ok: bool, negated: bool, items: seq<(int, int)>)
    ensures ok == ReadClassPattern(pattern).Some?
    ensures ok ==> negated == ReadClassPattern(pattern).value.negated
    ensures ok ==> items == AllEnds(ReadClassPattern(pattern).value.items)
  {
    hide ReadPatternItem;
    ok, negated, items := false, false, [];
    if |pattern| < 2 || pattern[0] != '[' || pattern[|pattern| - 1] != ']' { return; }
    var i := 1;
    negated := pattern[i] == '^';
    if negated { i := i + 1; }
    ghost var start := pattern[i..];
    ghost var done: seq<Item> := [];
    PrependNothing(ReadPatternItems(start));
    while i + 1 < |pattern|
      invariant 1 <= i <= |pattern|
      invariant ReadPatternItems(start) == Prepend(done, ReadPatternItems(pattern[i..]))
      invariant items == AllEnds(done)
      decreases |pattern| - i
    {
      var good, pair, next := ReadPatternMember(pattern, i);
      if !good { return; }
      ghost var it := ReadPatternItem(pattern[i..]).value.0;
      assert pattern[i..][next - i..] == pattern[next..];
      PrependTwice(done, [it], ReadPatternItems(pattern[next..]));
      items, i := items + [pair], next;
      done := done + [it];
    }
    assert ReadPatternItems(pattern[i..]) == Some([]);
    assert done + [] == done;
    ok := items != [];
  }

  // ---- what the pattern reader can list: surrogates and numbers past Unicode too

  predicate Readable(it: Item) { 0 <= Lo(it) <= Hi(it) < 0x1_0000_0000 }

  predicate AllReadable(its: seq<Item>) { forall i :: 0 <= i < |its| ==> Readable(its[i]) }

  lemma {:induction false} ParseHexBound(s: string)
    requires AllHex(s)
    ensures ParseHex(s) < Pow(16, |s|)
  {
    if s != "" { ParseHexBound(s[..|s| - 1]); }
  }

  lemma ReadOneBound(t: string)
    requires ReadOne(t).Some?
    ensures ReadOne(t).value.cp < 0x1_0000_0000
  {
    hide ParseHex, PatternEscape, CloseAt;
    HexPowers();
    if |t| >= 6 && AllHex(t[2..6]) { ParseHexBound(t[2..6]); }
    if |t| >= 4 && AllHex(t[2..4]) { ParseHexBound(t[2..4]); }
  }

  lemma ReadItemBound(t: string)
    requires ReadPatternItem(t).Some?
    ensures Readable(ReadPatternItem(t).value.0)
  {
    hide ReadOne;
    ReadOneBound(t);
    var n := ReadOne(t).value.len;
    if n + 2 < |t| && t[n] == '-' { ReadOneBound(t[n + 1..]); }
  }

  lemma {:induction false} ReadItemsBound(t: string)
    requires ReadPatternItems(t).Some?
    ensures AllReadable(ReadPatternItems(t).value)
    decreases |t|
  {
    hide ReadPatternItem;
    if |t| > 1 {
      ReadItemBound(t);
      ReadItemsBound(t[ReadPatternItem(t).value.1..]);
    }
  }

  lemma PatternReadable(pattern: string)
    requires ReadClassPattern(pattern).Some?
    ensures AllReadable(ReadClassPattern(pattern).value.items)
  {
    hide ReadPatternItems;
    ReadItemsBound(if pattern[1] == '^' then pattern[2..] else pattern[1..]);
  }

  // ---- the pattern reader undoes the emitter

  lemma ParseBare(hex: string)
    requires hex != "" && AllHex(hex) && ParseHex(hex) < 0x1_0000_0000
    ensures ParseU32(hex) == Some(ParseHex(hex))
  {
    assert IsHex(hex[0]);
  }

  lemma CloseAfter(hex: string, t: string)
    requires AllHex(hex)
    ensures CloseAt(hex + ("}" + t)) == |hex|
  {
    RunLengthIs(hex, "}" + t, c => c != '}');
  }

  lemma ReadBraced(hex: string, t: string)
    requires hex != "" && AllHex(hex) && ParseHex(hex) < 0x1_0000_0000
    ensures ReadOne("\\u{" + hex + "}" + t) == Some(Read(ParseHex(hex), 4 + |hex|))
  {
    hide ParseU32, CloseAt, ParseHex, AllHex, RunLength;
    var all := "\\u{" + hex + "}" + t;
    assert all[3..] == hex + ("}" + t);
    CloseAfter(hex, t);
    ParseBare(hex);
    assert all[3..3 + |hex|] == hex;
  }

  lemma ReadFourDigits(hex: string, t: string)
    requires |hex| == 4 && AllHex(hex)
    ensures ReadOne("\\u" + hex + t) == Some(Read(ParseHex(hex), 6))
  {
    var all := "\\u" + hex + t;
    assert all[2..6] == hex;
    assert all[2] == hex[0] && IsHex(hex[0]);
  }

  lemma ReadClassEscape(cp: int, t: string)
    requires 0 <= cp < 0x1_0000_0000
    ensures ReadOne(ClassEscape(cp) + t) == Some(Read(cp, |ClassEscape(cp)|))
  {
    hide ReadOne;
    if 0xFFFF < cp {
      MinHexReads(cp, false);
      ReadBraced(MinHex(cp, false), t);
    } else {
      HexPowers();
      FixedHexReads(cp, 4, false);
      ReadFourDigits(FixedHex(cp, 4, false), t);
    }
  }

  lemma PatternRange(t: string, lo: Read, hi: Read)
    requires ReadOne(t) == Some(lo) && lo.len + 2 < |t| && t[lo.len] == '-'
    requires ReadOne(t[lo.len + 1..]) == Some(hi) && lo.cp <= hi.cp
    ensures ReadPatternItem(t) == Some((Range(lo.cp, hi.cp), lo.len + 1 + hi.len))
  {
    hide ReadOne;
  }

  lemma ReadEmittedRange(lo: int, hi: int, t: string)
    requires 0 <= lo <= hi < 0x1_0000_0000 && t != ""
    ensures ReadPatternItem(EmitItem(Range(lo, hi)) + t) == Some((Range(lo, hi), |EmitItem(Range(lo, hi))|))
  {
    hide ReadOne, ClassEscape, ReadPatternItem;
    var a, b := ClassEscape(lo), ClassEscape(hi);
    var all := EmitItem(Range(lo, hi)) + t;
    assert all == a + ("-" + (b + t));
    assert all[|a| + 1..] == b + t;
    ReadClassEscape(lo, "-" + (b + t));
    ReadClassEscape(hi, t);
    PatternRange(all, Read(lo, |a|), Read(hi, |b|));
  }

  lemma ReadEmittedItem(it: Item, t: string)
    requires Readable(it)
    requires t != "" && t[0] != '-'
    ensures ReadPatternItem(EmitItem(it) + t) == Some((it, |EmitItem(it)|))
  {
    hide ReadOne, ClassEscape;
    if it.One? {
      ReadClassEscape(it.cp, t);
    } else {
      ReadEmittedRange(it.lo, it.hi, t);
    }
  }

  lemma {:induction false} ReadEmittedItems(its: seq<Item>)
    requires AllReadable(its)
    ensures ReadPatternItems(EmitItems(its) + "]") == Some(its)
    ensures EmitItems(its) == "" || EmitItems(its)[0] == '\\'
  {
    hide ReadPatternItem;
    if its != [] {
      var s := EmitItem(its[0]);
      var rest := EmitItems(its[1..]) + "]";
      Assoc(s, EmitItems(its[1..]), "]");
      ReadEmittedItems(its[1..]);
      ReadEmittedItem(its[0], rest);
      assert (s + rest)[|s|..] == rest;
      assert its == [its[0]] + its[1..];
    }
  }

  /** The pattern emitted for a class reads back as that class. */
  lemma EmittedReadsBack(c: Class)
    requires c.items != [] && AllReadable(c.items)
    ensures ReadClassPattern(EmitClass(c)) == Some(c)
  {
    ReadEmittedItems(c.items);
    PatternOf(c.negated, EmitItems(c.items), c.items);
  }

  lemma PatternOf(negated: bool, inner: string, items: seq<Item>)
    requires ReadPatternItems(inner + "]") == Some(items) && items != []
    requires inner == "" || inner[0] != '^'
    ensures ReadClassPattern("[" + (if negated then "^" else "") + inner + "]") == Some(Class(negated, items))
  {
    hide ReadPatternItems;
    var p := "[" + (if negated then "^" else "") + inner + "]";
    assert p[if negated then 2 else 1..] == inner + "]";
  }

  // ---- the renderer's class text

  /** A range with equal ends is written as one member. */
  function Tight(it: Item): (t: Item) {
    if it.Range? && it.lo == it.hi then One(it.lo) else it
  }

  function TightItems(its: seq<Item>): (ts: seq<Item>)
    ensures |ts| == |its| && forall i :: 0 <= i < |its| ==> ts[i] == Tight(its[i])
    ensures AllScalar(its) ==> AllScalar(ts)
    ensures AllNamed(its) ==> AllNamed(ts)
  {
    seq(|its|, i requires 0 <= i < |its| => Tight(its[i]))
  }

  function TightClass(c: Class): (t: Class) { Class(c.negated, TightItems(c.items)) }

  function ItemText(it: Item): (s: string)
    requires Named(it)
  {
    if Lo(it) == Hi(it) then ClassChar(Lo(it)) else ClassChar(Lo(it)) + "-" + ClassChar(Hi(it))
  }

  function ItemsText(its: seq<Item>): (s: string)
    requires AllNamed(its)
  {
    if its == [] then "" else ItemText(its[0]) + ItemsText(its[1..])
  }

  function ClassText(c: Class): (s: string)
    requires AllNamed(c.items)
  {
    "[" + (if c.negated then "^" else "") + ItemsText(c.items) + "]"
  }

  lemma ReadItemText(it: Item, t: string)
    requires ScalarItem(it)
    requires t != "" && t[0] != '-'
    ensures ItemText(it) != "" && ItemText(it)[0] != '-' && ItemText(it)[0] != '^'
    ensures ReadItem(ItemText(it) + t) == Some((Tight(it), |ItemText(it)|))
  {
    hide ReadChar, ClassChar;
    var lo, hi := Lo(it), Hi(it);
    if lo == hi {
      ReadClassChar(lo, t);
    } else {
      var a, b := ClassChar(lo), ClassChar(hi);
      var all := ItemText(it) + t;
      assert all == a + ("-" + (b + t));
      ReadClassChar(lo, "-" + (b + t));
      assert all[|a| + 1..] == b + t;
      ReadClassChar(hi, t);
    }
  }

  lemma {:induction false} ReadItemsText(its: seq<Item>)
    requires AllScalar(its)
    ensures DecodeItems(ItemsText(its) + "]") == Some(TightItems(its))
    ensures its != [] ==> ItemsText(its) != "" && ItemsText(its)[0] != '-' && ItemsText(its)[0] != '^'
  {
    hide ReadItem, ItemText;
    if its != [] {
      var s := ItemText(its[0]);
      var rest := ItemsText(its[1..]) + "]";
      Assoc(s, ItemsText(its[1..]), "]");
      ReadItemsText(its[1..]);
      ReadItemText(its[0], rest);
      assert (s + rest)[|s|..] == rest;
      assert TightItems(its) == [Tight(its[0])] + TightItems(its[1..]);
    }
  }

  /** The class the renderer writes decodes to the class it was given, equal-ended ranges collapsed. */
  lemma RenderedClassDecodes(c: Class)
    requires ScalarClass(c)
    ensures DecodeClass(ClassText(c)) == Some(TightClass(c))
  {
    hide ReadItem, ItemText;
    ReadItemsText(c.items);
    var raw := ClassText(c);
    var body := ItemsText(c.items) + "]";
    if c.negated {
      assert raw[1..] == "^" + body;
      assert raw[1..][1..] == body;
    } else {
      assert raw[1..] == body;
    }
  }
}
