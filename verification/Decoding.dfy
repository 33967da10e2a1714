/** How terminals are decoded: Rust's strings of characters against TypeScript's strings of UTF-16
    units, and where the decoder's cursor goes in a terminal the lexer has cut. */
module Decoding {
  import opened Text
  import opened Terminals
  import opened Lexer

  // ---- UTF-16: section 2 of RFC 2781

  type Unit = u: int | 0 <= u <= 0xFFFF

  /** The units of a code point, an unpaired surrogate being its own. */
  function Units(cp: CodePoint): (us: seq<Unit>) {
    if cp < 0x10000 then [cp]
    else [0xD800 + (cp - 0x10000) / 0x400, 0xDC00 + (cp - 0x10000) % 0x400]
  }

  /** What the TypeScript decoder appends: the units of each character it reads, pairs or not. */
  function DecodeUnits(t: string): (r: Option<seq<Unit>>)
    decreases |t|
  {
    if |t| <= 1 then Some([])
    else match ReadChar(t)
      case None => None
      case Some(Read(cp, n)) => Prepend(Units(cp), DecodeUnits(t[n..]))
  }

  /** Decoding by section 2.2 of RFC 2781: `None` where the sequence is in error. */
  function FromUtf16(us: seq<Unit>): (r: Option<string>) {
    if us == [] then Some("")
    else if !IsSurrogate(us[0]) then Prepend([us[0] as char], FromUtf16(us[1..]))
    else if !IsHigh(us[0]) || |us| == 1 || !IsLow(us[1]) then None
    else Prepend([Combine(us[0], us[1]) as char], FromUtf16(us[2..]))
  }

  lemma PairCombines(cp: CodePoint)
    requires 0x10000 <= cp
    ensures |Units(cp)| == 2 && IsHigh(Units(cp)[0]) && IsLow(Units(cp)[1]) && Combine(Units(cp)[0], Units(cp)[1]) == cp
  {
  }

  /** A character's units decode to it. */
  lemma UnitsDecode(cp: CodePoint, us: seq<Unit>)
    requires !IsSurrogate(cp)
    ensures FromUtf16(Units(cp) + us) == Prepend([cp as char], FromUtf16(us))
  {
    var all := Units(cp) + us;
    if cp < 0x10000 {
      assert all[1..] == us;
    } else {
      PairCombines(cp);
      assert all[2..] == us;
    }
  }

  /** Text round-trips through UTF-16. */
  function ToUtf16(s: string): (us: seq<Unit>) {
    if s == "" then [] else Units(s[0] as int) + ToUtf16(s[1..])
  }

  lemma {:induction false} Utf16RoundTrip(s: string)
    ensures FromUtf16(ToUtf16(s)) == Some(s)
  {
    if s != "" {
      Utf16RoundTrip(s[1..]);
      UnitsDecode(s[0] as int, ToUtf16(s[1..]));
      assert s == [s[0]] + s[1..];
    }
  }

  /** The first unit of what follows is a low surrogate exactly when a low surrogate is read next. */
  lemma NextUnit(t: string)
    requires DecodeUnits(t).Some?
    ensures var us := DecodeUnits(t).value;
            us != [] && IsLow(us[0]) <==> |t| > 1 && ReadChar(t).Some? && IsLow(ReadChar(t).value.cp)
    ensures |t| > 1 && ReadChar(t).Some? && IsLow(ReadChar(t).value.cp) ==>
              DecodeUnits(t) == Prepend([ReadChar(t).value.cp], DecodeUnits(t[ReadChar(t).value.len..]))
  {
    hide ReadChar;
    if |t| > 1 {
      var cp := ReadChar(t).value.cp;
      if 0x10000 <= cp { PairCombines(cp); }
    }
  }

  /** The Rust decoder answers exactly when the units the TypeScript decoder appends are well
      formed, and then with their decoding: for every mix of characters and escapes. */
  lemma {:induction false} DecodersAgree(t: string)
    ensures DecodeTail(t) == match DecodeUnits(t) case None => None case Some(us) => FromUtf16(us)
    decreases |t|
  {
    hide ReadChar;
    if |t| > 1 && ReadChar(t).Some? {
      var (cp, n) := (ReadChar(t).value.cp, ReadChar(t).value.len);
      var rest := t[n..];
      DecodersAgree(rest);
      if !IsSurrogate(cp) {
        if DecodeUnits(rest).Some? { UnitsDecode(cp, DecodeUnits(rest).value); }
      } else if DecodeUnits(rest).Some? {
        var us := DecodeUnits(rest).value;
        NextUnit(rest);
        assert ([cp] + us)[1..] == us && ([cp] + us)[0] == cp;
        if IsHigh(cp) && |rest| > 1 && ReadChar(rest).Some? && IsLow(ReadChar(rest).value.cp) {
          var low := ReadChar(rest).value;
          DecodersAgree(rest[low.len..]);
          assert ([cp] + us)[2..] == us[1..];
          assert us[1..] == DecodeUnits(rest[low.len..]).value;
        }
      } else if IsHigh(cp) && |rest| > 1 && ReadChar(rest).Some? && IsLow(ReadChar(rest).value.cp) {
        DecodersAgree(rest[ReadChar(rest).value.len..]);
      }
    }
  }

  // ---- the cursor

  /** What the lexer cuts holds no closing delimiter but its own last character. */
  lemma {:induction false} CutBalanced(t: string, close: char)
    requires CloseOf(t, close).Some? && close != '\\'
    ensures Balanced(t[..CloseOf(t, close).value], close)
    decreases |t|
  {
    var k := CloseOf(t, close).value;
    if t[0] != close {
      var skip := if t[0] == '\\' then 2 else 1;
      CutBalanced(t[skip..], close);
      assert t[..k][skip..] == t[skip..][..k - skip];
    }
  }

  lemma {:induction false} BalancedAfter(b: string, n: nat, close: char)
    requires Balanced(b, close) && n <= |b| && forall i :: 0 <= i < n ==> b[i] != '\\'
    ensures Balanced(b[n..], close)
  {
    if n != 0 {
      BalancedAfter(b[1..], n - 1, close);
      assert b[1..][n - 1..] == b[n..];
    }
  }

  /** A character read inside a cut terminal ends inside it, on a boundary; and a backslash there
      always has its mark. */
  lemma ReadStays(b: string, close: char)
    requires Balanced(b, close) && b != "" && (close == '"' || close == ']')
    ensures b[0] == '\\' ==> |b| >= 2
    ensures ReadChar(b + [close]).Some? ==>
              ReadChar(b + [close]).value.len <= |b| && Balanced(b[ReadChar(b + [close]).value.len..], close)
  {
    var t := b + [close];
    assert t[0] == b[0];
    if b[0] == '\\' {
      assert t[1] == b[1];
      var w := HexEscape(b[1]);
      if ReadChar(t).Some? && SimpleEscape(b[1]).None? {
        HexStays(b, close, w);
        assert b[2..][w..] == b[2 + w..];
      }
    }
  }

  lemma HexStays(b: string, close: char, w: nat)
    requires Balanced(b, close) && |b| >= 2 && b[0] == '\\' && (close == '"' || close == ']')
    requires 2 + w <= |b| + 1 && AllHex((b + [close])[2..2 + w])
    ensures 2 + w <= |b| && Balanced(b[2..][w..], close)
  {
    var t := b + [close];
    var hex := t[2..2 + w];
    assert w > 0 ==> hex[w - 1] == t[1 + w] && IsHex(t[1 + w]);
    assert t[|b|] == close && !IsHex(close);
    forall i | 0 <= i < w && i < |b| - 2 ensures b[2..][i] != '\\' { assert hex[i] == b[2..][i] && IsHex(hex[i]); }
    if 2 + w <= |b| { BalancedAfter(b[2..], w, close); }
  }

  /** The cursor stands inside a cut terminal, at the start of a character or on its last one. */
  predicate OnBoundary(raw: string, i: nat, close: char) {
    1 <= i < |raw| && raw[|raw| - 1] == close && Balanced(raw[i..|raw| - 1], close)
  }

  /** A terminal as the lexer cuts it starts its cursor on a boundary. */
  lemma CutStarts(t: string)
    requires LexToken(t).Some? && (LexToken(t).value.0.GS? || LexToken(t).value.0.CC?)
    ensures var tok := LexToken(t).value.0; OnBoundary(tok.src, 1, if tok.GS? then '"' else ']')
  {
    hide Balanced, CloseOf;
    var close := if t[0] == '"' then '"' else ']';
    var raw := LexToken(t).value.0.src;
    CutBalanced(t[1..], close);
    var k := CloseOf(t[1..], close).value;
    assert raw[1..|raw| - 1] == t[1..][..k];
  }

  /** Reading a character from a boundary advances, to a boundary, and never past the last
      character; a backslash always has a mark to read. */
  lemma CharAdvances(raw: string, i: nat, close: char)
    requires OnBoundary(raw, i, close) && i + 1 < |raw| && (close == '"' || close == ']')
    ensures raw[i] == '\\' ==> i + 2 < |raw|
    ensures ReadChar(raw[i..]).Some? ==>
              var next := i + ReadChar(raw[i..]).value.len; i < next < |raw| && OnBoundary(raw, next, close)
  {
    hide ReadChar, Balanced;
    var b := raw[i..|raw| - 1];
    assert raw[i..] == b + [close];
    ReadStays(b, close);
    if ReadChar(raw[i..]).Some? {
      var len := ReadChar(raw[i..]).value.len;
      assert b[len..] == raw[i + len..|raw| - 1];
    }
  }

  /** Reading a class member does too. */
  lemma MemberAdvances(raw: string, i: nat)
    requires OnBoundary(raw, i, ']') && i + 1 < |raw|
    ensures ReadItem(raw[i..]).Some? ==>
              var next := i + ReadItem(raw[i..]).value.1; i < next < |raw| && OnBoundary(raw, next, ']')
  {
    hide ReadChar, OnBoundary;
    BoundaryInside(raw, i);
    CharAdvances(raw, i, ']');
    if ReadItem(raw[i..]).Some? {
      var n := ReadChar(raw[i..]).value.len;
      if n + 2 < |raw| - i && raw[i + n] == '-' {
        HyphenAdvances(raw, i + n);
        CharAdvances(raw, i + n + 1, ']');
        assert raw[i..][n + 1..] == raw[i + n + 1..];
        assert ReadItem(raw[i..]).value.1 == n + 1 + ReadChar(raw[i + n + 1..]).value.len;
      }
    }
  }

  lemma BoundaryInside(raw: string, i: nat)
    requires OnBoundary(raw, i, ']')
    ensures i < |raw|
  {
  }

  lemma HyphenAdvances(raw: string, i: nat)
    requires OnBoundary(raw, i, ']') && i + 2 < |raw| && raw[i] == '-'
    ensures OnBoundary(raw, i + 1, ']')
  {
    assert raw[i..|raw| - 1][1..] == raw[i + 1..|raw| - 1];
  }

  /** Where the string decoder's cursor ends: `None` where a character is refused. */
  function LastCursor(raw: string, i: nat): (r: Option<nat>)
    decreases |raw| - i
  {
    if |raw| <= i + 1 then Some(i)
    else match ReadChar(raw[i..])
      case None => None
      case Some(Read(_, n)) => LastCursor(raw, i + n)
  }

  /** Where the class decoder's ends. */
  function LastMember(raw: string, i: nat): (r: Option<nat>)
    decreases |raw| - i
  {
    if |raw| <= i + 1 then Some(i)
    else match ReadItem(raw[i..])
      case None => None
      case Some((_, n)) => LastMember(raw, i + n)
  }

  lemma {:induction false} CursorEnds(raw: string, i: nat)
    requires OnBoundary(raw, i, '"')
    ensures LastCursor(raw, i).Some? ==> LastCursor(raw, i) == Some(|raw| - 1)
    ensures LastCursor(raw, i).Some? <==> DecodeUnits(raw[i..]).Some?
    decreases |raw| - i
  {
    hide ReadChar;
    if i + 1 < |raw| {
      CharAdvances(raw, i, '"');
      assert ReadChar(raw[i..]).Some? ==> raw[i..][ReadChar(raw[i..]).value.len..] == raw[i + ReadChar(raw[i..]).value.len..];
      if ReadChar(raw[i..]).Some? { CursorEnds(raw, i + ReadChar(raw[i..]).value.len); }
    }
  }

  lemma {:induction false} MembersEnd(raw: string, i: nat)
    requires OnBoundary(raw, i, ']')
    ensures LastMember(raw, i).Some? ==> LastMember(raw, i) == Some(|raw| - 1)
    ensures LastMember(raw, i).Some? <==> DecodeItems(raw[i..]).Some?
    decreases |raw| - i
  {
    hide ReadItem;
    if i + 1 < |raw| {
      MemberAdvances(raw, i);
      assert ReadItem(raw[i..]).Some? ==> raw[i..][ReadItem(raw[i..]).value.1..] == raw[i + ReadItem(raw[i..]).value.1..];
      if ReadItem(raw[i..]).Some? { MembersEnd(raw, i + ReadItem(raw[i..]).value.1); }
    }
  }

  /** In every terminal the lexer cuts, the decoder finishes exactly on the closing delimiter, unless
      what stands before that is refused. */
  lemma DecoderEndsOnDelimiter(t: string)
    requires LexToken(t).Some? && (LexToken(t).value.0.GS? || LexToken(t).value.0.CC?)
    ensures |LexToken(t).value.0.src| > 1
    ensures var tok := LexToken(t).value.0;
            if tok.GS? then LastCursor(tok.src, 1) == if DecodeUnits(tok.src[1..]).Some? then Some(|tok.src| - 1) else None
            else
              var start := if |tok.src| > 2 && tok.src[1] == '^' then 2 else 1;
              LastMember(tok.src, start) == if DecodeItems(tok.src[start..]).Some? then Some(|tok.src| - 1) else None
  {
    hide LexToken, LastCursor, LastMember, DecodeUnits, DecodeItems;
    CutStarts(t);
    var tok := LexToken(t).value.0;
    if tok.GS? {
      CursorEnds(tok.src, 1);
    } else if |tok.src| > 2 && tok.src[1] == '^' {
      CaretAdvances(tok.src);
      MembersEnd(tok.src, 2);
    } else {
      MembersEnd(tok.src, 1);
    }
  }

  lemma CaretAdvances(raw: string)
    requires OnBoundary(raw, 1, ']') && |raw| > 2 && raw[1] == '^'
    ensures OnBoundary(raw, 2, ']')
  {
    assert raw[1..|raw| - 1][1..] == raw[2..|raw| - 1];
  }
}
