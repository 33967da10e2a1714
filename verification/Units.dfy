/** Class patterns where the `u` flag is missing: what is then listed by its letters, or by its two
    units. */
module Units {
  import opened Text
  import opened Terminals
  import opened Spelling
  import opened Language

  lemma {:induction false} PlainListed(s: string)
    requires forall i :: 0 <= i < |s| ==> s[i] !in ['\\', '-']
    ensures ReadPatternItems(s + "]").Some?
    ensures forall cp :: InItems(ReadPatternItems(s + "]").value, cp) <==> exists i :: 0 <= i < |s| && s[i] as int == cp
  {
    if s != "" {
      var t := s + "]";
      PlainListed(s[1..]);
      assert t[1..] == s[1..] + "]";
      assert ReadPatternItem(t) == Some((One(s[0] as int), 1));
      ListedFirst(One(s[0] as int), ReadPatternItems(t[1..]).value);
      assert forall i :: 1 <= i < |s| ==> s[i] == s[1..][i - 1];
    }
  }

  lemma ListedFirst(it: Item, its: seq<Item>)
    ensures forall cp :: InItems([it] + its, cp) <==> Lo(it) <= cp <= Hi(it) || InItems(its, cp)
  {
    var all := [it] + its;
    forall cp ensures InItems(all, cp) <==> Lo(it) <= cp <= Hi(it) || InItems(its, cp) {
      assert all[0] == it;
      if InItems(its, cp) {
        var x :| x in its && Lo(x) <= cp <= Hi(x);
        assert x in all;
      }
    }
  }

  /** What a class holds when its legacy reading lists these members. */
  lemma HoldsListed(pattern: string, t: string, flags: string, ch: char)
    requires 'u' !in flags && !ShorthandClass(pattern) && Legacy(pattern) == "[" + t
    requires |t| > 1 && t[0] != '^' && t[|t| - 1] == ']' && ReadPatternItems(t).Some? && ReadPatternItems(t).value != []
    ensures Holds(pattern, flags, ch) <==> ch as int <= 0xFFFF && InItems(ReadPatternItems(t).value, ch as int)
  {
    hide ReadPatternItems, InItems, Legacy, ShorthandClass;
    var raw := "[" + t;
    assert raw[1..] == t && raw[|raw| - 1] == t[|t| - 1] && raw[1] == t[0];
  }

  lemma ListsSome(t: string)
    requires |t| > 1
    ensures ReadPatternItems(t).Some? ==> ReadPatternItems(t).value != []
  {
    hide ReadPatternItem;
  }

  /** A braced escape lists the characters it is written with. */
  lemma BracedByLetters(hex: string, flags: string, ch: char)
    requires AllHex(hex) && 'u' !in flags
    ensures Holds("[\\u{" + hex + "}]", flags, ch) <==> ch in "u{}" || ch in hex
  {
    hide ReadPatternItems, InItems, Legacy, Holds;
    var pattern := "[\\u{" + hex + "}]";
    var body := "u{" + hex + "}";
    forall i | 0 <= i < |body| ensures body[i] !in ['\\', '-'] && body[i] as int <= 0xFFFF {
      if 2 <= i < 2 + |hex| { assert IsHex(hex[i - 2]); }
    }
    BracedLegacy(hex, pattern);
    PlainListed(body);
    ListsSome(body + "]");
    HoldsListed(pattern, body + "]", flags, ch);
    Letters(hex, ch);
  }

  lemma Letters(hex: string, ch: char)
    requires AllHex(hex)
    ensures var body := "u{" + hex + "}";
            (ch as int <= 0xFFFF && exists i :: 0 <= i < |body| && body[i] as int == ch as int) <==> ch in "u{}" || ch in hex
  {
    var body := "u{" + hex + "}";
    assert body[0] == 'u' && body[1] == '{' && body[|body| - 1] == '}';
    if ch in hex {
      var i :| 0 <= i < |hex| && hex[i] == ch;
      assert body[i + 2] == ch && IsHex(hex[i]);
    }
    if i :| 0 <= i < |body| && body[i] as int == ch as int {
      assert 2 <= i < 2 + |hex| ==> body[i] == hex[i - 2];
    }
  }

  lemma BracedLegacy(hex: string, pattern: string)
    requires AllHex(hex) && pattern == "[\\u{" + hex + "}]"
    ensures Legacy(pattern) == "[" + ("u{" + hex + "}" + "]") && !ShorthandClass(pattern)
  {
    hide Legacy;
    var tail := "{" + hex + "}]";
    var escape := "\\u" + tail;
    forall i | 0 <= i < |tail| ensures tail[i] != '\\' && tail[i] as int <= 0xFFFF {
      if 1 <= i <= |hex| { assert IsHex(hex[i - 1]); }
    }
    assert pattern == "[" + escape && tail + "" == tail && escape[2..] == tail;
    LegacyPlain("[", escape);
    LegacyBrace(escape);
    LegacyPlain(tail, "");
    assert Legacy("") == "" by { LegacyNothing(); }
  }

  lemma LegacyNothing()
    ensures Legacy("") == ""
  {
  }

  lemma LegacyBrace(t: string)
    requires |t| > 2 && t[0] == '\\' && t[1] == 'u' && t[2] == '{'
    ensures Legacy(t) == "u" + Legacy(t[2..])
  {
  }

  lemma LegacyAstral(c: char, t: string)
    requires 0xFFFF < c as int
    ensures Legacy([c] + t) == Halves(c) + Legacy(t)
  {
    assert ([c] + t)[1..] == t;
  }

  /** A range up to a character past the Basic Multilingual Plane ends at the first of its units, and
      the second stands for itself: no character is between, or is that. */
  lemma RangeByUnits(lo: char, hi: char, flags: string, ch: char)
    requires 'a' <= lo <= 'z' && 0xFFFF < hi as int && 'u' !in flags
    ensures Holds("[" + [lo] + "-" + [hi] + "]", flags, ch) <==> lo as int <= ch as int < 0xD800
  {
    hide ReadPatternItems, InItems, Legacy, Holds, ClassEscape;
    var pattern := "[" + [lo] + "-" + [hi] + "]";
    var a, b := 0xD800 + (hi as int - 0x10000) / 0x400, 0xDC00 + (hi as int - 0x10000) % 0x400;
    var t := [lo] + "-" + Halves(hi) + "]";
    assert pattern == ("[" + [lo] + "-") + ([hi] + "]");
    LegacyPlain("[" + [lo] + "-", [hi] + "]");
    LegacyAstral(hi, "]");
    LegacyPlain("]", "");
    LegacyNothing();
    assert "]" + "" == "]";
    assert Legacy(pattern) == "[" + t;
    UnitsListed(lo, a, b, t);
    HoldsListed(pattern, t, flags, ch);
    RangeOf(lo, a, b, ch);
  }

  lemma RangeOf(lo: char, a: int, b: int, ch: char)
    requires 0xD800 <= a < 0xDC00 <= b < 0xE000
    ensures InItems([Range(lo as int, a), One(b)], ch as int) <==> lo as int <= ch as int < 0xD800
  {
    ListedFirst(Range(lo as int, a), [One(b)]);
    ListedFirst(One(b), []);
    assert [One(b)] + [] == [One(b)] && [Range(lo as int, a)] + [One(b)] == [Range(lo as int, a), One(b)];
  }

  lemma UnitsListed(lo: char, a: int, b: int, t: string)
    requires 'a' <= lo <= 'z' && 0xD800 <= a < 0xDC00 <= b < 0xE000
    requires t == [lo] + "-" + (ClassEscape(a) + ClassEscape(b)) + "]"
    ensures ReadPatternItems(t) == Some([Range(lo as int, a), One(b)])
  {
    hide ClassEscape, ReadOne;
    var x, y := ClassEscape(a), ClassEscape(b);
    ReadClassEscape(a, y + "]");
    ReadClassEscape(b, "]");
    assert t[2..] == x + (y + "]");
    assert ReadOne(t) == Some(Read(lo as int, 1)) by { ReadLetter(t); }
    PatternRange(t, Read(lo as int, 1), Read(a, |x|));
    assert t[2 + |x|..] == y + "]";
    LastListed(b);
    assert ReadPatternItems(t) == Prepend([Range(lo as int, a)], Some([One(b)]));
    assert [Range(lo as int, a)] + [One(b)] == [Range(lo as int, a), One(b)];
  }

  lemma LastListed(b: int)
    requires 0 <= b < 0xE000
    ensures ReadPatternItems(ClassEscape(b) + "]") == Some([One(b)])
  {
    hide ClassEscape, ReadOne;
    var y := ClassEscape(b);
    ReadClassEscape(b, "]");
    assert y != "" by { EscapeSome(b); }
    assert (y + "]")[|y|..] == "]";
    assert ReadPatternItems(y + "]") == Prepend([One(b)], ReadPatternItems("]"));
    assert [One(b)] + [] == [One(b)];
  }

  lemma EscapeSome(b: nat)
    ensures ClassEscape(b) != ""
  {
  }

  lemma ReadLetter(t: string)
    requires t != "" && 'a' <= t[0] <= 'z'
    ensures ReadOne(t) == Some(Read(t[0] as int, 1))
  {
  }
}
