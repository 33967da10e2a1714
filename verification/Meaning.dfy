/** What raw terminals denote, said without a reader: characters spelled plainly or escaped, one
    after another. The decoders read every such spelling. */
module Meaning {
  import opened Text
  import opened Terminals
  import opened Decoding

  // ---- one character

  /** A named escape: tab, carriage return, line feed, and five characters that stand for themselves. */
  predicate Names(s: string, cp: int) {
    || (s == "\\t" && cp == 9)
    || (s == "\\r" && cp == 13)
    || (s == "\\n" && cp == 10)
    || (s == "\\\\" && cp == 92)
    || (s == "\\\"" && cp == 34)
    || (s == "\\[" && cp == 91)
    || (s == "\\]" && cp == 93)
    || (s == "\\-" && cp == 45)
  }

  /** A code point by its number: `x` and two hexadecimal digits, `u` and four, or `U` and eight. */
  predicate Numbers(s: string, cp: int) {
    && ((|s| == 4 && s[..2] == "\\x") || (|s| == 6 && s[..2] == "\\u") || (|s| == 10 && s[..2] == "\\U"))
    && AllHex(s[2..]) && ParseHex(s[2..]) == cp <= 0x10FFFF
  }

  /** The text spells the code point: itself, a named escape, or its number. */
  predicate Denotes(s: string, cp: int) {
    (|s| == 1 && s[0] != '\\' && cp == s[0] as int) || Names(s, cp) || Numbers(s, cp)
  }

  lemma EscapeNames(t: string, cp: int)
    requires |t| == 2 && t[0] == '\\'
    ensures SimpleEscape(t[1]).Some? && cp == SimpleEscape(t[1]).value as int <==> Names(t, cp)
  {
    assert t == [t[0], t[1]];
  }

  lemma EscapeNumbers(t: string, cp: int)
    requires |t| > 2 && t[0] == '\\'
    ensures HexEscape(t[1]) == |t| - 2 && AllHex(t[2..]) && ParseHex(t[2..]) == cp <= MAX_CP <==> Numbers(t, cp)
  {
    hide ParseHex;
    assert t[..2] == [t[0], t[1]];
  }

  /** A character is read exactly where its spelling stands. */
  lemma ReadExact(t: string, cp: int, n: nat)
    ensures ReadChar(t) == Some(Read(cp, n)) <==> n <= |t| && Denotes(t[..n], cp)
  {
    hide Names, Numbers, ParseHex;
    if n <= |t| && n > 0 { assert t[..n][0] == t[0]; }
    if 2 <= n <= |t| { assert t[..n][1] == t[1]; }
    if n <= |t| { LongEnough(t[..n], cp); }
    if |t| >= 2 && t[0] == '\\' {
      EscapeNames(t[..2], cp);
      var w := HexEscape(t[1]);
      if n <= |t| && n > 2 {
        EscapeNumbers(t[..n], cp);
        if n == 2 + w { assert t[..n][2..] == t[2..n]; }
      }
      ReadEscape(t);
    }
  }

  lemma LongEnough(s: string, cp: int)
    ensures Names(s, cp) ==> |s| == 2 && s[0] == '\\'
    ensures Numbers(s, cp) ==> |s| > 2 && s[0] == '\\' && SimpleEscape(s[1]).None?
  {
    hide ParseHex;
    if Numbers(s, cp) { assert s[..2][0] == s[0] && s[..2][1] == s[1]; }
  }

  /** An escape is a named one, or digits follow. */
  lemma ReadEscape(t: string)
    requires |t| >= 2 && t[0] == '\\'
    ensures ReadChar(t) ==
            if SimpleEscape(t[1]).Some? then Some(Read(SimpleEscape(t[1]).value as int, 2))
            else
              var w := HexEscape(t[1]);
              if w == 0 || |t| < 2 + w || !AllHex(t[2..2 + w]) || ParseHex(t[2..2 + w]) > MAX_CP then None
              else Some(Read(ParseHex(t[2..2 + w]), 2 + w))
  {
    hide ParseHex;
  }

  lemma ReadSpelled(s: string, cp: int, rest: string)
    requires Denotes(s, cp)
    ensures ReadChar(s + rest) == Some(Read(cp, |s|))
  {
    assert (s + rest)[..|s|] == s;
    ReadExact(s + rest, cp, |s|);
  }

  // ---- literals

  /** A spelled character of a literal. */
  datatype Spelled = Spelled(text: string, cp: CodePoint)

  predicate AllDenote(ss: seq<Spelled>) { forall i :: 0 <= i < |ss| ==> Denotes(ss[i].text, ss[i].cp) }

  function TextOf(ss: seq<Spelled>): (s: string) { if ss == [] then "" else ss[0].text + TextOf(ss[1..]) }

  function UnitsOf(ss: seq<Spelled>): (us: seq<Unit>) { if ss == [] then [] else Units(ss[0].cp) + UnitsOf(ss[1..]) }

  /** However its characters are spelled, a literal decodes to their units: in TypeScript to the
      units themselves, in Rust to the text they encode, or not at all. */
  lemma {:induction false} LiteralMeans(ss: seq<Spelled>)
    requires AllDenote(ss)
    ensures DecodeUnits(TextOf(ss) + "\"") == Some(UnitsOf(ss))
    ensures DecodeString("\"" + TextOf(ss) + "\"") == FromUtf16(UnitsOf(ss))
  {
    hide ReadChar, Denotes, DecodeTail, FromUtf16, Units;
    if ss != [] {
      var s, rest := ss[0], TextOf(ss[1..]) + "\"";
      LiteralMeans(ss[1..]);
      Assoc(s.text, TextOf(ss[1..]), "\"");
      ReadSpelled(s.text, s.cp, rest);
      assert (s.text + rest)[|s.text|..] == rest;
    }
    var raw := "\"" + TextOf(ss) + "\"";
    assert raw[1..] == TextOf(ss) + "\"";
    DecodersAgree(raw[1..]);
  }

  // ---- classes

  /** A spelled member of a class: a character, or a range of two. */
  datatype Member = Lone(s: string, cp: int) | Pair(s: string, lo: int, t: string, hi: int)

  function MemberText(m: Member): (s: string) { if m.Lone? then m.s else m.s + "-" + m.t }

  function MemberItem(m: Member): (it: Item) { if m.Lone? then One(m.cp) else Range(m.lo, m.hi) }

  predicate WellSpelled(m: Member) {
    match m
    case Lone(s, cp) => Denotes(s, cp) && !IsSurrogate(cp)
    case Pair(s, lo, t, hi) =>
      Denotes(s, lo) && Denotes(t, hi) && !IsSurrogate(lo) && !IsSurrogate(hi) && lo <= hi
  }

  function BodyOf(ms: seq<Member>): (s: string) { if ms == [] then "" else MemberText(ms[0]) + BodyOf(ms[1..]) }

  function ItemsOf(ms: seq<Member>): (its: seq<Item>) { if ms == [] then [] else [MemberItem(ms[0])] + ItemsOf(ms[1..]) }

  /** A hyphen right after a lone member is taken for a range, except where it ends the class. */
  predicate NoStrayHyphen(ms: seq<Member>) {
    forall i :: 0 <= i && i + 1 < |ms| && ms[i].Lone? ==>
      MemberText(ms[i + 1]) != "" && (MemberText(ms[i + 1])[0] == '-' ==> i + 2 == |ms| && MemberText(ms[i + 1]) == "-")
  }

  lemma MemberRead(m: Member, rest: string)
    requires WellSpelled(m) && rest != ""
    requires m.Lone? && rest[0] == '-' ==> |rest| <= 2
    ensures ReadItem(MemberText(m) + rest) == Some((MemberItem(m), |MemberText(m)|)) && MemberText(m) != ""
  {
    hide ReadChar, Denotes;
    if m.Lone? {
      ReadSpelled(m.s, m.cp, rest);
    } else {
      var all := MemberText(m) + rest;
      assert all == m.s + ("-" + (m.t + rest));
      ReadSpelled(m.s, m.lo, "-" + (m.t + rest));
      assert all[|m.s| + 1..] == m.t + rest;
      ReadSpelled(m.t, m.hi, rest);
    }
  }

  /** However its members are spelled, a class body decodes to those members in order; a hyphen
      that ends the body is a member. */
  lemma {:induction false} BodyMeans(ms: seq<Member>)
    requires (forall i :: 0 <= i < |ms| ==> WellSpelled(ms[i])) && NoStrayHyphen(ms)
    ensures DecodeItems(BodyOf(ms) + "]") == Some(ItemsOf(ms))
  {
    hide ReadItem, WellSpelled, MemberText, MemberItem;
    if ms != [] {
      var m, rest := ms[0], BodyOf(ms[1..]) + "]";
      BodyMeans(ms[1..]);
      MemberRead(m, rest);
      Assoc(MemberText(m), BodyOf(ms[1..]), "]");
      assert (MemberText(m) + rest)[|MemberText(m)|..] == rest;
    }
  }

  /** A class in any spelling means its members, complemented by a leading caret. */
  lemma ClassMeans(negated: bool, ms: seq<Member>)
    requires ms != [] && (forall i :: 0 <= i < |ms| ==> WellSpelled(ms[i])) && NoStrayHyphen(ms)
    requires !negated && MemberText(ms[0]) != "" ==> MemberText(ms[0])[0] != '^'
    ensures DecodeClass("[" + (if negated then "^" else "") + BodyOf(ms) + "]") == Some(Class(negated, ItemsOf(ms)))
  {
    hide DecodeClass, WellSpelled, MemberText;
    BodyMeans(ms);
    FirstSpelled(ms[0]);
    BodyDecodes(negated, BodyOf(ms), ItemsOf(ms));
  }

  lemma BodyDecodes(negated: bool, body: string, items: seq<Item>)
    requires DecodeItems(body + "]") == Some(items) && items != [] && body != "" && (negated || body[0] != '^')
    ensures DecodeClass("[" + (if negated then "^" else "") + body + "]") == Some(Class(negated, items))
  {
    hide DecodeItems;
    var raw := "[" + (if negated then "^" else "") + body + "]";
    if negated {
      assert raw[1..] == "^" + (body + "]") && raw[1..][1..] == body + "]";
    } else {
      assert raw[1..] == body + "]";
    }
  }

  lemma FirstSpelled(m: Member)
    requires WellSpelled(m)
    ensures MemberText(m) != ""
  {
  }
}
