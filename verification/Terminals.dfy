/** GBNF's terminals: string literals and character classes, decoded from their raw text and
    spelled back. Functions read a suffix of the raw text that still holds the closing
    delimiter, so `|t| > 1` is the source's `i < end`. */
module Terminals {
  import opened Text

  datatype Read = Read(cp: int, len: nat)

  // ---- reading one character

  function SimpleEscape(mark: char): (c: Option<char>) {
    match mark
    case 't' => Some('\t')
    case 'r' => Some('\r')
    case 'n' => Some('\n')
    case '\\' => Some('\\')
    case '"' => Some('"')
    case '[' => Some('[')
    case ']' => Some(']')
    case '-' => Some('-')
    case _ => None
  }

  function HexEscape(mark: char): (digits: nat) {
    match mark
    case 'x' => 2
    case 'u' => 4
    case 'U' => 8
    case _ => 0
  }

  /** The character, plain or escaped, that `t` starts with. */
  function ReadChar(t: string): (r: Option<Read>)
    ensures r.Some? ==> 1 <= r.value.len <= |t| && 0 <= r.value.cp <= MAX_CP
  {
    if t == "" then None
    else if t[0] != '\\' then Some(Read(t[0] as int, 1))
    else if |t| == 1 then None
    else if SimpleEscape(t[1]).Some? then Some(Read(SimpleEscape(t[1]).value as int, 2))
    else
      var digits := HexEscape(t[1]);
      if digits == 0 || |t| < 2 + digits || !AllHex(t[2..2 + digits]) then None
      else
        var cp := ParseHex(t[2..2 + digits]);
        if cp > MAX_CP then None else Some(Read(cp, 2 + digits))
  }

  // ---- string literals

  predicate IsHigh(cp: int) { 0xD800 <= cp <= 0xDBFF }

  predicate IsLow(cp: int) { 0xDC00 <= cp <= 0xDFFF }

  function Combine(high: int, low: int): (cp: int)
    requires IsHigh(high) && IsLow(low)
    ensures 0x10000 <= cp <= MAX_CP
  {
    0x10000 + (high - 0xD800) * 0x400 + (low - 0xDC00)
  }

  /** What a literal denotes from `t` on: pairs of surrogate escapes name one character, and an
      unpaired one is refused. */
  function DecodeTail(t: string): (r: Option<string>)
    decreases |t|
  {
    if |t| <= 1 then Some("")
    else match ReadChar(t)
      case None => None
      case Some(Read(cp, n)) =>
        var rest := t[n..];
        if IsHigh(cp) && |rest| > 1 && ReadChar(rest).Some? && IsLow(ReadChar(rest).value.cp) then
          var low := ReadChar(rest).value;
          Prepend([Combine(cp, low.cp) as char], DecodeTail(rest[low.len..]))
        else if IsSurrogate(cp) then None
        else Prepend([cp as char], DecodeTail(rest))
  }

  function DecodeString(raw: string): (r: Option<string>) {
    DecodeTail(if raw == "" then "" else raw[1..])
  }

  /** The decoder as it runs: a cursor into the raw literal and a growing buffer. */
  method DecodeStringLoop(raw: string) returns (r: Option<string>)
    ensures r == DecodeString(raw)
  {
    hide ReadChar;
    var out := "";
    var i := 1;
    if raw == "" { return Some(""); }
    PrependNothing(DecodeTail(raw[i..]));
    while i + 1 < |raw|
      invariant 1 <= i <= |raw|
      invariant DecodeString(raw) == Prepend(out, DecodeTail(raw[i..]))
      decreases |raw| - i
    {
      var first := ReadChar(raw[i..]);
      if first.None? { return None; }
      var cp := first.value.cp;
      var next := i + first.value.len;
      assert raw[i..][first.value.len..] == raw[next..];
      if IsHigh(cp) && next + 1 < |raw| {
        var second := ReadChar(raw[next..]);
        if second.Some? && IsLow(second.value.cp) {
          assert raw[next..][second.value.len..] == raw[next + second.value.len..];
          PrependTwice(out, [Combine(cp, second.value.cp) as char], DecodeTail(raw[next + second.value.len..]));
          out := out + [Combine(cp, second.value.cp) as char];
          i := next + second.value.len;
          continue;
        }
      }
      if IsSurrogate(cp) { return None; }
      PrependTwice(out, [cp as char], DecodeTail(raw[next..]));
      out := out + [cp as char];
      i := next;
    }
    assert DecodeTail(raw[i..]) == Some("");
    assert out + "" == out;
    r := Some(out);
  }

  // ---- character classes, decoded

  /** A member of a class as it was written: `x`, or `x-y`. */
  datatype Item = One(cp: int) | Range(lo: int, hi: int)

  function Lo(it: Item): (cp: int) { if it.One? then it.cp else it.lo }

  function Hi(it: Item): (cp: int) { if it.One? then it.cp else it.hi }

  /** The member `t` starts with, and how much of `t` spells it. A `-` just before the closing
      bracket is a member, not a range operator. */
  function ReadItem(t: string): (r: Option<(Item, nat)>)
    ensures r.Some? ==> 1 <= r.value.1 <= |t| && ScalarItem(r.value.0)
  {
    match ReadChar(t)
    case None => None
    case Some(Read(lo, n)) =>
      if IsSurrogate(lo) then None
      else if n + 2 < |t| && t[n] == '-' then
        match ReadChar(t[n + 1..])
        case None => None
        case Some(Read(hi, m)) =>
          if IsSurrogate(hi) || hi < lo then None else Some((Range(lo, hi), n + 1 + m))
      else Some((One(lo), n))
  }

  /** The members a raw class lists from `t` on. */
  function DecodeItems(t: string): (r: Option<seq<Item>>)
    ensures r.Some? ==> AllScalar(r.value)
    decreases |t|
  {
    if |t| <= 1 then Some([])
    else match ReadItem(t)
      case None => None
      case Some((it, n)) => Prepend([it], DecodeItems(t[n..]))
  }

  /** Every end is a character, and every range ascends: what a raw class that decodes lists. */
  predicate ScalarItem(it: Item) { IsScalar(Lo(it)) && IsScalar(Hi(it)) && Lo(it) <= Hi(it) }

  predicate AllScalar(its: seq<Item>) { forall i :: 0 <= i < |its| ==> ScalarItem(its[i]) }

  /** A class: its complement mark, and its members in order. */
  datatype Class = Class(negated: bool, items: seq<Item>)

  function DecodeClass(raw: string): (r: Option<Class>)
    ensures r.Some? ==> ScalarClass(r.value)
  {
    var t := if raw == "" then "" else raw[1..];
    var negated := t != "" && t[0] == '^';
    match DecodeItems(if negated then t[1..] else t)
    case None => None
    case Some(items) => if items == [] then None else Some(Class(negated, items))
  }

  // ---- the emitted pattern

  function ClassEscape(cp: int): (s: string)
    requires 0 <= cp
  {
    if 0xFFFF < cp then "\\u{" + MinHex(cp, false) + "}" else "\\u" + FixedHex(cp, 4, false)
  }

  predicate Named(it: Item) { 0 <= Lo(it) && 0 <= Hi(it) }

  predicate AllNamed(its: seq<Item>) { forall i :: 0 <= i < |its| ==> Named(its[i]) }

  function EmitItem(it: Item): (s: string)
    requires Named(it)
    ensures s != ""
  {
    match it
    case One(cp) => ClassEscape(cp)
    case Range(lo, hi) => ClassEscape(lo) + "-" + ClassEscape(hi)
  }

  function EmitItems(its: seq<Item>): (s: string)
    requires AllNamed(its)
  {
    if its == [] then "" else EmitItem(its[0]) + EmitItems(its[1..])
  }

  function EmitClass(c: Class): (s: string)
    requires AllNamed(c.items)
  {
    "[" + (if c.negated then "^" else "") + EmitItems(c.items) + "]"
  }

  /** Whether a member reaches past the Basic Multilingual Plane. */
  predicate Astral(its: seq<Item>) { exists it <- its :: 0xFFFF < Lo(it) || 0xFFFF < Hi(it) }

  lemma AstralAppend(its: seq<Item>, it: Item)
    ensures Astral(its + [it]) <==> Astral(its) || 0xFFFF < Lo(it) || 0xFFFF < Hi(it)
  {
    var all := its + [it];
    assert all[|its|] == it;
    assert forall k :: 0 <= k < |its| ==> all[k] == its[k];
  }

  lemma NoneAstral()
    ensures !Astral([])
  {
  }

  /** Unicode mode is decided by what the class can match. */
  function FlagsFor(c: Class): (s: string) {
    if c.negated || Astral(c.items) then "u" else ""
  }

  /** A class the decoder can return. */
  predicate ScalarClass(c: Class) { c.items != [] && AllScalar(c.items) }

  /** One turn of the class decoder: the member at the cursor, spelled for the pattern. */
  method DecodeMember(raw: string, i: nat) returns (ok: bool, part: string, past: bool, next: nat)
    requires i + 1 < |raw|
    ensures ok == ReadItem(raw[i..]).Some?
    ensures ok ==> part == EmitItem(ReadItem(raw[i..]).value.0) && next == i + ReadItem(raw[i..]).value.1
    ensures ok ==> var it := ReadItem(raw[i..]).value.0; past == (0xFFFF < Lo(it) || 0xFFFF < Hi(it))
  {
    hide ReadChar, ClassEscape;
    ok, part, past, next := false, "", false, i;
    var lo := ReadChar(raw[i..]);
    if lo.None? || IsSurrogate(lo.value.cp) { return; }
    next := i + lo.value.len;
    if next + 2 < |raw| && raw[next] == '-' {
      assert raw[i..][lo.value.len + 1..] == raw[next + 1..];
      var hi := ReadChar(raw[next + 1..]);
      if hi.None? || IsSurrogate(hi.value.cp) || hi.value.cp < lo.value.cp { return; }
      ok, past := true, 0xFFFF < lo.value.cp || 0xFFFF < hi.value.cp;
      part := ClassEscape(lo.value.cp) + "-" + ClassEscape(hi.value.cp);
      next := next + 1 + hi.value.len;
    } else {
      ok, past := true, 0xFFFF < lo.value.cp;
      part := ClassEscape(lo.value.cp);
    }
  }

  /** The class decoder as it runs: a cursor, the growing pattern text, and two flags. */
  method DecodeClassLoop(raw: string) returns (ok: bool, pattern: string, flags: string)
    ensures ok == DecodeClass(raw).Some?
    ensures ok ==> pattern == EmitClass(DecodeClass(raw).value)
    ensures ok ==> flags == FlagsFor(DecodeClass(raw).value)
  {
    hide ReadItem, EmitItem, Astral;
    NoneAstral();
    ok, pattern, flags := false, "", "";
    if raw == "" { return; }
    var i := 1;
    var negated := i < |raw| && raw[i] == '^';
    if negated { i := i + 1; }
    ghost var start := raw[i..];
    ghost var done: seq<Item> := [];
    var parts, astral := "", false;
    PrependNothing(DecodeItems(start));
    while i + 1 < |raw|
      invariant 1 <= i <= |raw|
      invariant DecodeItems(start) == Prepend(done, DecodeItems(raw[i..]))
      invariant AllScalar(done) && parts == EmitItems(done)
      invariant astral <==> Astral(done)
      invariant parts == "" <==> done == []
      decreases |raw| - i
    {
      var good, part, past, next := DecodeMember(raw, i);
      if !good { return; }
      ghost var it := ReadItem(raw[i..]).value.0;
      assert raw[i..][next - i..] == raw[next..];
      EmitItemsAppend(done, it);
      AstralAppend(done, it);
      PrependTwice(done, [it], DecodeItems(raw[next..]));
      done := done + [it];
      parts, astral, i := parts + part, astral || past, next;
    }
    assert DecodeItems(raw[i..]) == Some([]);
    assert done + [] == done;
    if parts == "" { return; }
    ok := true;
    pattern := "[" + (if negated then "^" else "") + parts + "]";
    flags := if negated || astral then "u" else "";
  }

  lemma {:induction false} EmitItemsAppend(its: seq<Item>, it: Item)
    requires AllNamed(its)
    requires Named(it)
    ensures AllNamed(its + [it])
    ensures EmitItems(its + [it]) == EmitItems(its) + EmitItem(it)
  {
    var all := its + [it];
    if its == [] {
      assert all[1..] == [];
    } else {
      assert all[1..] == its[1..] + [it];
      EmitItemsAppend(its[1..], it);
      Assoc(EmitItem(its[0]), EmitItems(its[1..]), EmitItem(it));
    }
  }
}
