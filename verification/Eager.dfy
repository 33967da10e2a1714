/** Eager tokenisation: the code points an emitted class holds, the test that class tokens are
    unambiguous, and what dropping the lexer's gate changes once it has passed: nothing. */
module Eager {
  import opened Text
  import opened Ir
  import opened Terminals
  import opened Spelling
  import opened Ranges
  import opened Validate
  import opened FrontEnd
  import opened Image
  import opened Language

  // ---- reading an emitted pattern back

  /** An escape of the emitted kind at the start of `t`. */
  function EscapeAt(t: string): (r: Option<Read>)
    ensures r.Some? ==> 1 <= r.value.len <= |t| && 0 <= r.value.cp
  {
    if |t| < 2 || t[0] != '\\' || t[1] != 'u' then None
    else if |t| > 2 && t[2] == '{' then
      var k := CloseAt(t[3..]);
      if 3 + k == |t| then None
      else match ParseU32(t[3..3 + k])
        case None => None
        case Some(cp) => Some(Read(cp, 4 + k))
    else if |t| < 6 then None
    else match ParseU32(t[2..6])
      case None => None
      case Some(cp) => Some(Read(cp, 6))
  }

  /** A member at the start of `t`: an escape, or two with a hyphen between. */
  function MemberAt(t: string): (r: Option<(Item, nat)>)
    ensures r.Some? ==> 1 <= r.value.1 <= |t| && Named(r.value.0)
  {
    match EscapeAt(t)
    case None => None
    case Some(Read(lo, n)) =>
      if n < |t| && t[n] == '-' then
        match EscapeAt(t[n + 1..])
        case None => None
        case Some(Read(hi, m)) => Some((Range(lo, hi), n + 1 + m))
      else Some((One(lo), n))
  }

  function MembersFrom(t: string): (r: Option<seq<Item>>)
    ensures r.Some? ==> AllNamed(r.value)
    decreases |t|
  {
    if |t| <= 1 then Some([])
    else match MemberAt(t)
      case None => None
      case Some((it, n)) => Prepend([it], MembersFrom(t[n..]))
  }

  /** The class an emitted pattern spells. */
  function EmittedMembers(pattern: string): (r: Option<Class>)
    ensures r.Some? ==> AllNamed(r.value.items)
  {
    if pattern == ANY_PATTERN then Some(Class(false, [Range(0, MAX_CP)]))
    else if |pattern| < 2 || pattern[0] != '[' || pattern[|pattern| - 1] != ']' then None
    else
      var negated := pattern[1] == '^';
      match MembersFrom(if negated then pattern[2..] else pattern[1..])
      case None => None
      case Some(items) => Some(Class(negated, items))
  }

  // ---- what an emitted pattern is

  /** An escape of the emitted kind: `\\u` and four digits (a `+` may be the first), or braced. */
  predicate EscapeSpells(s: string, cp: int) {
    PatternBraced(s, cp) || (|s| == 6 && s[..2] == "\\u" && s[2] != '{' && ParseU32(s[2..]) == Some(cp))
  }

  /** A member: an escape, or two with a hyphen between. */
  ghost predicate MemberSpells(s: string, it: Item) {
    match it
    case One(cp) => EscapeSpells(s, cp)
    case Range(lo, hi) => exists k :: 0 <= k < |s| && s[k] == '-' && EscapeSpells(s[..k], lo) && EscapeSpells(s[k + 1..], hi)
  }

  /** The members of a class, one after another, and its closing bracket. */
  ghost predicate MembersSpell(t: string, its: seq<Item>) {
    if its == [] then t == "]" else exists n :: 0 < n <= |t| && MemberSpells(t[..n], its[0]) && MembersSpell(t[n..], its[1..])
  }

  lemma EscapeEnds(s: string, cp: int)
    requires EscapeSpells(s, cp)
    ensures |s| > 4 && s[0] == '\\' && s[|s| - 1] != ']'
  {
    hide ParseHex, AllHex;
    if !PatternBraced(s, cp) {
      assert s[..2][0] == s[0];
      var body := s[2..];
      assert body[3] == s[5];
      assert |body| == 4 && AllHex(if body[0] == '+' then body[1..] else body);
      LastDigit(if body[0] == '+' then body[1..] else body);
    } else {
      assert s[..3][0] == s[0];
    }
  }

  lemma LastDigit(hex: string)
    requires hex != "" && AllHex(hex)
    ensures hex[|hex| - 1] != ']'
  {
  }

  lemma EscapeAtExact(t: string, cp: int, n: nat)
    ensures EscapeAt(t) == Some(Read(cp, n)) <==> n <= |t| && EscapeSpells(t[..n], cp)
  {
    hide PatternBraced, ParseU32, CloseAt, ParseHex;
    if n <= |t| && EscapeSpells(t[..n], cp) { DenotesFirst(t[..n], cp); }
    if 0 < n <= |t| { assert t[..n][0] == t[0]; }
    if 1 < n <= |t| { assert t[..n][..2] == t[..2]; }
    if 2 < n <= |t| { assert t[..n][2] == t[2]; }
    if |t| >= 2 { assert t[..2] == [t[0], t[1]]; }
    if |t| >= 2 && t[0] == '\\' && t[1] == 'u' {
      if |t| > 2 && t[2] == '{' {
        assert t[..3] == "\\u{";
        var k := CloseAt(t[3..]);
        if n <= |t| && PatternBraced(t[..n], cp) {
          BracedCloses(t, n, cp);
          LastBrace(t[..n], cp);
          assert t[..n][n - 1] == t[n - 1];
          BracedDigits(t, n, cp);
        }
        if n == 4 + k && 3 + k < |t| { BracedDigits(t, n, cp); }
      } else if n == 6 <= |t| {
        Inside(t, 6, 2, 6);
      }
    }
  }

  lemma RangeParts(t: string, n: nat, k: nat)
    requires k < n <= |t|
    ensures t[..n][k] == t[k] && t[..n][..k] == t[..k] && t[..n][k + 1..] == t[k + 1..][..n - k - 1]
  {
  }

  lemma MemberTaken(t: string, it: Item, n: nat)
    requires MemberAt(t) == Some((it, n))
    ensures n <= |t| && MemberSpells(t[..n], it) && (it.One? ==> n == |t| || t[n] != '-')
  {
    hide EscapeAt, EscapeSpells;
    var lo := EscapeAt(t).value;
    EscapeAtExact(t, lo.cp, lo.len);
    if it.Range? {
      var hi := EscapeAt(t[lo.len + 1..]).value;
      EscapeAtExact(t[lo.len + 1..], hi.cp, hi.len);
      RangeParts(t, n, lo.len);
    }
  }

  lemma MemberStands(t: string, it: Item, n: nat)
    requires n <= |t| && MemberSpells(t[..n], it) && (it.One? ==> n == |t| || t[n] != '-')
    ensures MemberAt(t) == Some((it, n)) && t[0] == '\\' && t[n - 1] != ']'
  {
    hide EscapeAt, EscapeSpells;
    match it
    case One(cp) =>
      EscapeAtExact(t, cp, n);
      EscapeEnds(t[..n], cp);
    case Range(lo, hi) =>
      var k :| 0 <= k < n && t[..n][k] == '-' && EscapeSpells(t[..n][..k], lo) && EscapeSpells(t[..n][k + 1..], hi);
      RangeParts(t, n, k);
      EscapeAtExact(t, lo, k);
      EscapeAtExact(t[k + 1..], hi, n - k - 1);
      EscapeEnds(t[..k], lo);
      EscapeEnds(t[..n][k + 1..], hi);
      assert t[..n][n - 1] == t[n - 1] && t[..k][0] == t[0];
  }

  lemma {:induction false} MembersTaken(t: string)
    requires t != "" && t[|t| - 1] == ']' && MembersFrom(t).Some?
    ensures MembersSpell(t, MembersFrom(t).value)
    decreases |t|
  {
    hide MemberAt, MemberSpells;
    if |t| > 1 {
      var (it, n) := MemberAt(t).value;
      MemberTaken(t, it, n);
      MemberStands(t, it, n);
      MembersTaken(t[n..]);
      var rest := MembersFrom(t[n..]).value;
      assert MembersFrom(t).value == [it] + rest;
      assert ([it] + rest)[1..] == rest;
    }
  }

  lemma {:induction false} MembersStand(t: string, its: seq<Item>)
    requires MembersSpell(t, its)
    ensures MembersFrom(t) == Some(its)
    ensures t != "" && t[|t| - 1] == ']' && t[0] in ['\\', ']']
    decreases |its|
  {
    hide MemberAt, MemberSpells;
    if its != [] {
      var n :| 0 < n <= |t| && MemberSpells(t[..n], its[0]) && MembersSpell(t[n..], its[1..]);
      MembersStand(t[n..], its[1..]);
      assert t[n] == t[n..][0];
      MemberStands(t, its[0], n);
      assert its == [its[0]] + its[1..];
    }
  }

  /** An emitted pattern is read exactly as what it spells: `.`'s, or a bracketed list of escapes and
      of ranges between two. */
  lemma EmittedExact(pattern: string, c: Class)
    ensures EmittedMembers(pattern) == Some(c) <==>
            || (pattern == ANY_PATTERN && c == Class(false, [Range(0, MAX_CP)]))
            || (|pattern| >= 2 && pattern[0] == '[' && (c.negated ==> pattern[1] == '^')
                && MembersSpell(if c.negated then pattern[2..] else pattern[1..], c.items))
  {
    hide MembersFrom, MembersSpell;
    if pattern != ANY_PATTERN && EmittedMembers(pattern) == Some(c) {
      MembersTaken(if c.negated then pattern[2..] else pattern[1..]);
    }
    if |pattern| >= 2 && pattern[0] == '[' && (c.negated ==> pattern[1] == '^') {
      var t := if c.negated then pattern[2..] else pattern[1..];
      if MembersSpell(t, c.items) {
        MembersStand(t, c.items);
        assert t[0] == pattern[|pattern| - |t|] && t[|t| - 1] == pattern[|pattern| - 1];
        AnyUnlisted();
      }
    }
  }

  lemma AnyUnlisted()
    ensures MembersFrom(ANY_PATTERN[1..]).None?
  {
    var t := ANY_PATTERN[1..];
    assert t[1] == 's';
    assert EscapeAt(t).None?;
  }

  function Intervals(its: seq<Item>): (rs: seq<Interval>)
    requires AllNamed(its)
    ensures |rs| == |its| && forall i :: 0 <= i < |its| ==> rs[i] == Interval(Lo(its[i]), Hi(its[i]))
  {
    seq(|its|, i requires 0 <= i < |its| => Interval(Lo(its[i]), Hi(its[i])))
  }

  /** Every range runs upward, within Unicode. */
  predicate Ordered(its: seq<Item>) { forall i :: 0 <= i < |its| ==> 0 <= Lo(its[i]) <= Hi(its[i]) <= MAX_CP }

  lemma IntervalsMean(its: seq<Item>)
    requires AllNamed(its) && Ordered(its)
    ensures Upward(Intervals(its)) && InUnicode(Intervals(its))
    ensures forall cp :: Has(Intervals(its), cp) <==> InItems(its, cp)
  {
    var rs := Intervals(its);
    forall cp ensures Has(rs, cp) <==> InItems(its, cp) {
      if Has(rs, cp) {
        var i :| 0 <= i < |rs| && rs[i].lo <= cp <= rs[i].hi;
        assert its[i] in its;
      }
      if InItems(its, cp) {
        var i :| 0 <= i < |its| && Lo(its[i]) <= cp <= Hi(its[i]);
        assert rs[i].lo <= cp <= rs[i].hi;
      }
    }
  }

  /** The code points a class holds. */
  predicate InClass(c: Class, cp: int) { 0 <= cp <= MAX_CP && c.negated != InItems(c.items, cp) }

  lemma BoundKept(out: seq<Interval>)
    requires Tidy(out) && forall cp :: Has(out, cp) ==> cp <= MAX_CP
    ensures InUnicode(out)
  {
    forall i | 0 <= i < |out| ensures out[i].hi <= MAX_CP { assert Has(out, out[i].hi); }
  }

  /** One turn of the reader: the pair it pushes, and the cursor past it. */
  method ReadMember(pattern: string, i: nat) returns (ok: bool, pair: Interval, next: nat)
    requires i < |pattern|
    ensures ok == MemberAt(pattern[i..]).Some?
    ensures ok ==> var (it, n) := MemberAt(pattern[i..]).value; pair == Interval(Lo(it), Hi(it)) && next == i + n
  {
    hide EscapeAt;
    ok, pair, next := false, Interval(0, 0), i;
    var lo := EscapeAt(pattern[i..]);
    if lo.None? { return; }
    next := i + lo.value.len;
    if next < |pattern| && pattern[next] == '-' {
      assert pattern[i..][lo.value.len + 1..] == pattern[next + 1..];
      var hi := EscapeAt(pattern[next + 1..]);
      if hi.None? { return; }
      ok, pair, next := true, Interval(lo.value.cp, hi.value.cp), next + 1 + hi.value.len;
    } else {
      ok, pair := true, Interval(lo.value.cp, lo.value.cp);
    }
  }

  /** A class pattern read back into a list of ranges: it holds the code points the class holds. */
  method EmittedClassRanges(pattern: string) returns (ok: bool, rs: seq<Interval>)
    ensures ok == EmittedMembers(pattern).Some?
    ensures ok && Ordered(EmittedMembers(pattern).value.items) ==>
              Tidy(rs) && forall cp :: Has(rs, cp) <==> InClass(EmittedMembers(pattern).value, cp)
  {
    hide MemberAt, Has, InItems, Tidy, Complement;
    ok, rs := false, [];
    if pattern == ANY_PATTERN {
      AnyHolds();
      return true, [Interval(0, MAX_CP)];
    }
    if |pattern| < 2 || pattern[0] != '[' || pattern[|pattern| - 1] != ']' { return; }
    var i := 1;
    var negated := pattern[i] == '^';
    if negated { i := i + 1; }
    ghost var start := pattern[i..];
    ghost var done: seq<Item> := [];
    PrependNothing(MembersFrom(start));
    while i + 1 < |pattern|
      invariant 1 <= i <= |pattern|
      invariant MembersFrom(start) == Prepend(done, MembersFrom(pattern[i..]))
      invariant AllNamed(done) && rs == Intervals(done)
      decreases |pattern| - i
    {
      var good, pair, next := ReadMember(pattern, i);
      if !good { return false, []; }
      ghost var it := MemberAt(pattern[i..]).value.0;
      assert pattern[i..][next - i..] == pattern[next..];
      PrependTwice(done, [it], MembersFrom(pattern[next..]));
      rs, i := rs + [pair], next;
      done := done + [it];
    }
    assert MembersFrom(pattern[i..]) == Some([]);
    assert done + [] == done;
    ghost var c := EmittedMembers(pattern).value;
    assert c == Class(negated, done);
    ok := true;
    if Ordered(done) { IntervalsMean(done); }
    var merged := NormalizeRanges(rs);
    if Ordered(done) {
      HoldsWithin(Intervals(done));
      BoundKept(merged);
    }
    if negated {
      rs := ComplementRanges(merged);
      if Ordered(done) { ComplementExact(merged); }
    } else {
      rs := merged;
      if Ordered(done) { HoldsWithin(merged); }
    }
  }

  lemma HoldsWithin(rs: seq<Interval>)
    requires InUnicode(rs)
    ensures forall cp :: Has(rs, cp) ==> 0 <= cp <= MAX_CP
  {
  }

  lemma AnyHolds()
    ensures var rs := [Interval(0, MAX_CP)]; Tidy(rs) && forall cp :: Has(rs, cp) <==> InClass(Class(false, [Range(0, MAX_CP)]), cp)
  {
    var rs, its := [Interval(0, MAX_CP)], [Range(0, MAX_CP)];
    assert rs[0].lo == 0 && its[0] in its;
  }

  // ---- every emitted pattern is read back as the class it was emitted for

  lemma EscapeReads(cp: int, t: string)
    requires 0 <= cp <= MAX_CP
    ensures EscapeAt(ClassEscape(cp) + t) == Some(Read(cp, |ClassEscape(cp)|))
  {
    if 0xFFFF < cp {
      MinHexReads(cp, false);
      BracedReads(MinHex(cp, false), t);
    } else {
      HexPowers();
      FixedHexReads(cp, 4, false);
      DigitsRead(FixedHex(cp, 4, false), t);
    }
  }

  lemma BracedReads(hex: string, t: string)
    requires hex != "" && AllHex(hex) && ParseHex(hex) <= MAX_CP
    ensures EscapeAt("\\u{" + hex + "}" + t) == Some(Read(ParseHex(hex), 4 + |hex|))
  {
    hide ParseU32, CloseAt, ParseHex, AllHex, RunLength;
    var all := "\\u{" + hex + "}" + t;
    assert all[3..] == hex + ("}" + t);
    CloseAfter(hex, t);
    ParseBare(hex);
    assert all[3..3 + |hex|] == hex;
  }

  lemma DigitsRead(hex: string, t: string)
    requires |hex| == 4 && AllHex(hex) && ParseHex(hex) <= MAX_CP
    ensures EscapeAt("\\u" + hex + t) == Some(Read(ParseHex(hex), 6))
  {
    var all := "\\u" + hex + t;
    assert all[2..6] == hex;
    assert all[2] == hex[0] && IsHex(hex[0]);
    ParseBare(hex);
  }

  lemma MemberReads(it: Item, t: string)
    requires ScalarItem(it) && t != "" && t[0] != '-'
    ensures MemberAt(EmitItem(it) + t) == Some((it, |EmitItem(it)|))
  {
    hide EscapeAt, ClassEscape;
    if it.One? {
      EscapeReads(it.cp, t);
    } else {
      var a, b := ClassEscape(it.lo), ClassEscape(it.hi);
      var all := EmitItem(it) + t;
      assert all == a + ("-" + (b + t));
      assert all[|a| + 1..] == b + t;
      EscapeReads(it.lo, "-" + (b + t));
      EscapeReads(it.hi, t);
    }
  }

  lemma {:induction false} MembersRead(its: seq<Item>)
    requires AllScalar(its)
    ensures MembersFrom(EmitItems(its) + "]") == Some(its)
    ensures EmitItems(its) == "" || EmitItems(its)[0] == '\\'
  {
    hide MemberAt;
    if its != [] {
      var s := EmitItem(its[0]);
      var rest := EmitItems(its[1..]) + "]";
      Assoc(s, EmitItems(its[1..]), "]");
      MembersRead(its[1..]);
      MemberReads(its[0], rest);
      assert (s + rest)[|s|..] == rest;
      assert its == [its[0]] + its[1..];
    }
  }

  lemma EmittedReads(c: Class)
    requires ScalarClass(c)
    ensures EmittedMembers(EmitClass(c)) == Some(c) && Ordered(c.items)
  {
    hide EmitItems, ReadClassPattern, EmittedMembers;
    MembersRead(c.items);
    EmittedReadsBack(c);
    AnyIsNoClass();
    PatternMembers(c.negated, EmitItems(c.items), c.items);
  }

  lemma PatternMembers(negated: bool, inner: string, items: seq<Item>)
    requires MembersFrom(inner + "]") == Some(items) && (inner == "" || inner[0] == '\\')
    requires "[" + (if negated then "^" else "") + inner + "]" != ANY_PATTERN
    ensures EmittedMembers("[" + (if negated then "^" else "") + inner + "]") == Some(Class(negated, items))
  {
    hide MembersFrom;
    var p := "[" + (if negated then "^" else "") + inner + "]";
    assert p[if negated then 2 else 1..] == inner + "]";
  }

  /** For every raw class that decodes, the two readers of the emitted pattern and its meaning as
      an expression agree with what the class says, for every character. */
  lemma ClassMeaning(raw: string, ch: char)
    requires DecodeClass(raw).Some?
    ensures var c := DecodeClass(raw).value; var p := EmitClass(c);
            && EmittedMembers(p) == Some(c) && ReadClassPattern(p) == Some(c)
            && (InClass(c, ch as int) <==> Holds(p, FlagsFor(c), ch))
            && (FlagsFor(c) == "" && 0xFFFF < ch as int ==> !InClass(c, ch as int))
  {
    hide EmittedMembers, ReadClassPattern, EmitClass, InItems, Astral;
    var c := DecodeClass(raw).value;
    EmittedReads(c);
    EmittedReadsBack(c);
    DecodedFlagsFit(c);
    EmittedHolds(c, ch);
    assert "u"[0] == 'u' && 'u' !in "";
    assert ClassHolds(c, true, ch) <==> InClass(c, ch as int);
  }

  // ---- the terminals of a grammar

  /** The class and literal terminals of an element, in the order they stand. */
  function Leaves(el: Element): (ls: seq<Element>)
    decreases el, 0
  {
    match el
    case Regex(_, _) => [el]
    case Term(_, _) => [el]
    case Group(alts) => LeavesAlts(alts)
    case Opt(inner) => Leaves(inner)
    case Star(inner) => Leaves(inner)
    case Plus(inner) => Leaves(inner)
    case Rep(_, _, inner) => Leaves(inner)
    case _ => []
  }

  function LeavesSeq(els: seq<Element>): (ls: seq<Element>)
    decreases els, 1
  {
    if els == [] then [] else Leaves(els[0]) + LeavesSeq(els[1..])
  }

  function LeavesAlts(alts: seq<Sequence>): (ls: seq<Element>)
    decreases alts, 2
  {
    if alts == [] then [] else LeavesSeq(alts[0].els) + LeavesAlts(alts[1..])
  }

  function LeavesProds(ps: seq<Production>): (ls: seq<Element>) {
    if ps == [] then [] else LeavesAlts(ps[0].alts) + LeavesProds(ps[1..])
  }

  predicate IsLeaf(x: Element) { x.Regex? || x.Term? }

  /** The terminals listed are exactly those that stand in the element, at any depth. */
  lemma {:induction false} LeavesExact(el: Element, x: Element)
    ensures x in Leaves(el) <==> Within(x, el) && IsLeaf(x)
    decreases el, 0
  {
    match el
    case Group(alts) => LeavesAltsExact(alts, x);
    case Opt(inner) => LeavesExact(inner, x);
    case Star(inner) => LeavesExact(inner, x);
    case Plus(inner) => LeavesExact(inner, x);
    case Rep(_, _, inner) => LeavesExact(inner, x);
    case _ =>
  }

  lemma {:induction false} LeavesSeqExact(els: seq<Element>, x: Element)
    ensures x in LeavesSeq(els) <==> WithinSeq(x, els) && IsLeaf(x)
    decreases els, 1
  {
    hide Leaves, Within;
    if els != [] {
      LeavesExact(els[0], x);
      LeavesSeqExact(els[1..], x);
      assert forall i :: 0 < i < |els| ==> els[1..][i - 1] == els[i];
    }
  }

  lemma {:induction false} LeavesAltsExact(alts: seq<Sequence>, x: Element)
    ensures x in LeavesAlts(alts) <==> WithinAlts(x, alts) && IsLeaf(x)
    decreases alts, 2
  {
    hide LeavesSeq, WithinSeq;
    if alts != [] {
      LeavesSeqExact(alts[0].els, x);
      LeavesAltsExact(alts[1..], x);
      assert forall i :: 0 < i < |alts| ==> alts[1..][i - 1] == alts[i];
    }
  }

  lemma {:induction false} LeavesProdsExact(ps: seq<Production>, x: Element)
    ensures x in LeavesProds(ps) <==> WithinProds(x, ps) && IsLeaf(x)
  {
    hide LeavesAlts, WithinAlts;
    if ps != [] {
      LeavesAltsExact(ps[0].alts, x);
      LeavesProdsExact(ps[1..], x);
      assert forall i :: 0 < i < |ps| ==> ps[1..][i - 1] == ps[i];
    }
  }

  predicate Listed(ls: seq<Element>, pattern: string) { exists l <- ls :: l.Regex? && l.pattern == pattern }

  predicate Heads(ls: seq<Element>, cp: int) { exists l <- ls :: l.Term? && l.literal != "" && l.literal[0] as int == cp }

  predicate InPattern(pattern: string, cp: int) {
    EmittedMembers(pattern).Some? && InClass(EmittedMembers(pattern).value, cp)
  }

  predicate Orderly(pattern: string) { EmittedMembers(pattern).Some? ==> Ordered(EmittedMembers(pattern).value.items) }

  lemma ListedMore(ls: seq<Element>, i: nat, pattern: string)
    requires i < |ls|
    ensures Listed(ls[..i + 1], pattern) <==> Listed(ls[..i], pattern) || (ls[i].Regex? && ls[i].pattern == pattern)
  {
    assert ls[..i + 1] == ls[..i] + [ls[i]];
    assert ls[i] in ls[..i + 1];
  }

  lemma HeadsMore(ls: seq<Element>, i: nat, cp: int)
    requires i < |ls|
    ensures Heads(ls[..i + 1], cp) <==> Heads(ls[..i], cp) || (ls[i].Term? && ls[i].literal != "" && ls[i].literal[0] as int == cp)
  {
    assert ls[..i + 1] == ls[..i] + [ls[i]];
    assert ls[i] in ls[..i + 1];
  }

  /** What a walk has gathered: each class pattern once, and a list of ranges for it. */
  ghost predicate Gathered(ls: seq<Element>, keys: seq<string>, sets: map<string, seq<Interval>>) {
    && (forall p :: p in keys <==> Listed(ls, p) && EmittedMembers(p).Some?)
    && (forall i, j :: 0 <= i < j < |keys| ==> keys[i] != keys[j])
    && (forall p :: p in sets <==> p in keys)
  }

  /** The list of a pattern whose ranges are in order holds its code points. */
  ghost predicate Meant(keys: seq<string>, sets: map<string, seq<Interval>>) {
    forall p :: p in keys && p in sets && Orderly(p) ==> Tidy(sets[p]) && forall cp :: Has(sets[p], cp) <==> InPattern(p, cp)
  }

  lemma GatherMore(ls: seq<Element>, i: nat, keys: seq<string>, sets: map<string, seq<Interval>>, rs: seq<Interval>)
    requires i < |ls| && ls[i].Regex? && Gathered(ls[..i], keys, sets) && Meant(keys, sets) && ls[i].pattern !in keys
    requires EmittedMembers(ls[i].pattern).Some?
    requires Orderly(ls[i].pattern) ==> Tidy(rs) && forall cp :: Has(rs, cp) <==> InPattern(ls[i].pattern, cp)
    ensures Gathered(ls[..i + 1], keys + [ls[i].pattern], sets[ls[i].pattern := rs])
    ensures Meant(keys + [ls[i].pattern], sets[ls[i].pattern := rs])
  {
    hide EmittedMembers, InPattern, Has, Tidy, Listed, Orderly;
    forall p ensures Listed(ls[..i + 1], p) <==> Listed(ls[..i], p) || ls[i].pattern == p { ListedMore(ls, i, p); }
  }

  lemma GatherSame(ls: seq<Element>, i: nat, keys: seq<string>, sets: map<string, seq<Interval>>)
    requires i < |ls| && Gathered(ls[..i], keys, sets)
    requires ls[i].Regex? && EmittedMembers(ls[i].pattern).Some? ==> ls[i].pattern in keys
    ensures Gathered(ls[..i + 1], keys, sets)
  {
    hide EmittedMembers, Listed;
    forall p ensures Listed(ls[..i + 1], p) <==> Listed(ls[..i], p) || (ls[i].Regex? && ls[i].pattern == p) { ListedMore(ls, i, p); }
  }

  /** Every distinct class pattern with its ranges, and the first character of every literal. */
  method CollectTerminals(ls: seq<Element>)
    returns (usable: bool, keys: seq<string>, sets: map<string, seq<Interval>>, heads: seq<int>)
    ensures usable <==> forall p :: Listed(ls, p) ==> EmittedMembers(p).Some?
    ensures Gathered(ls, keys, sets) && Meant(keys, sets)
    ensures forall cp :: cp in heads <==> Heads(ls, cp)
  {
    hide EmittedMembers, InClass, Has, Tidy, Gathered, Meant, Listed, Heads;
    usable, keys, sets, heads := true, [], map[], [];
    var i := 0;
    NothingGathered(ls);
    while i < |ls|
      invariant i <= |ls|
      invariant usable <==> forall p :: Listed(ls[..i], p) ==> EmittedMembers(p).Some?
      invariant Gathered(ls[..i], keys, sets) && Meant(keys, sets)
      invariant forall cp :: cp in heads <==> Heads(ls[..i], cp)
    {
      var l := ls[i];
      forall p ensures Listed(ls[..i + 1], p) <==> Listed(ls[..i], p) || (l.Regex? && l.pattern == p) { ListedMore(ls, i, p); }
      forall cp ensures Heads(ls[..i + 1], cp) <==> Heads(ls[..i], cp) || (l.Term? && l.literal != "" && l.literal[0] as int == cp) {
        HeadsMore(ls, i, cp);
      }
      if l.Regex? && l.pattern !in keys {
        var ok, rs := EmittedClassRanges(l.pattern);
        if ok {
          GatherMore(ls, i, keys, sets, rs);
          keys, sets := keys + [l.pattern], sets[l.pattern := rs];
        } else {
          GatherSame(ls, i, keys, sets);
          usable := false;
        }
      } else {
        GatherSame(ls, i, keys, sets);
        if l.Term? && l.literal != "" { heads := heads + [l.literal[0] as int]; }
      }
      GatheredKeys(ls[..i + 1], keys, sets);
      i := i + 1;
    }
    assert ls[..i] == ls;
  }

  lemma NothingGathered(ls: seq<Element>)
    ensures ls[..0] == [] && Gathered([], [], map[]) && Meant([], map[])
    ensures (forall p :: !Listed([], p)) && forall cp :: !Heads([], cp)
  {
  }

  lemma GatheredKeys(ls: seq<Element>, keys: seq<string>, sets: map<string, seq<Interval>>)
    requires Gathered(ls, keys, sets)
    ensures forall p :: p in keys <==> Listed(ls, p) && EmittedMembers(p).Some?
  {
  }

  // ---- the test

  /** No character is in two classes, and none that starts a literal is in any. */
  ghost predicate Separate(ls: seq<Element>) {
    && (forall p, q, cp :: Listed(ls, p) && Listed(ls, q) && p != q ==> !(InPattern(p, cp) && InPattern(q, cp)))
    && (forall p, cp :: Listed(ls, p) && Heads(ls, cp) ==> !InPattern(p, cp))
  }

  // ---- the same, of the grammar itself

  ghost predicate HasClass(g: seq<Production>, pattern: string) { exists x :: WithinProds(x, g) && x.Regex? && x.pattern == pattern }

  /** A literal in the grammar starts with the character. */
  ghost predicate HasHead(g: seq<Production>, cp: int) {
    exists x :: WithinProds(x, g) && x.Term? && x.literal != "" && x.literal[0] as int == cp
  }

  ghost predicate KeptApart(g: seq<Production>) {
    && (forall p, q, cp :: HasClass(g, p) && HasClass(g, q) && p != q ==> !(InPattern(p, cp) && InPattern(q, cp)))
    && (forall p, cp :: HasClass(g, p) && HasHead(g, cp) ==> !InPattern(p, cp))
  }

  lemma ListedExact(g: seq<Production>, p: string)
    ensures Listed(LeavesProds(g), p) <==> HasClass(g, p)
  {
    hide LeavesProds, WithinProds;
    if Listed(LeavesProds(g), p) {
      var x :| x in LeavesProds(g) && x.Regex? && x.pattern == p;
      LeavesProdsExact(g, x);
    }
    if HasClass(g, p) {
      var x :| WithinProds(x, g) && x.Regex? && x.pattern == p;
      LeavesProdsExact(g, x);
    }
  }

  lemma HeadsExact(g: seq<Production>, cp: int)
    ensures Heads(LeavesProds(g), cp) <==> HasHead(g, cp)
  {
    hide LeavesProds, WithinProds;
    if Heads(LeavesProds(g), cp) {
      var x :| x in LeavesProds(g) && x.Term? && x.literal != "" && x.literal[0] as int == cp;
      LeavesProdsExact(g, x);
    }
    if HasHead(g, cp) {
      var x :| WithinProds(x, g) && x.Term? && x.literal != "" && x.literal[0] as int == cp;
      LeavesProdsExact(g, x);
    }
  }

  lemma SeparateExact(g: seq<Production>)
    ensures Separate(LeavesProds(g)) <==> KeptApart(g)
  {
    hide LeavesProds, WithinProds, InPattern, Listed, Heads, HasClass, HasHead;
    forall p ensures Listed(LeavesProds(g), p) <==> HasClass(g, p) { ListedExact(g, p); }
    forall cp ensures Heads(LeavesProds(g), cp) <==> HasHead(g, cp) { HeadsExact(g, cp); }
  }

  /** A match token of the compiled grammar: its source, its flags, and whether it skips the gate. */
  datatype Matcher = Matcher(source: string, flags: string, eager: bool)

  predicate Known(ls: seq<Element>, source: string) { source != "" && source[0] == '^' && Listed(ls, source[1..]) }

  /** What has to hold for the gate to be dropped. */
  ghost predicate Clear(ls: seq<Element>, ms: seq<Matcher>) {
    && ms != []
    && (forall p :: Listed(ls, p) ==> EmittedMembers(p).Some?)
    && (forall i :: 0 <= i < |ms| ==> Known(ls, ms[i].source))
    && Separate(ls)
  }

  predicate AllTidy(keys: seq<string>, sets: map<string, seq<Interval>>) {
    forall p <- keys :: p in sets && Tidy(sets[p])
  }

  /** What has to hold for the gate to be dropped, of the grammar: there are match tokens, every one
      is for a class of the grammar, every class can be read, and none is in another's way. */
  ghost predicate MayDrop(g: seq<Production>, ms: seq<Matcher>) {
    && ms != []
    && (forall p :: HasClass(g, p) ==> EmittedMembers(p).Some?)
    && (forall i :: 0 <= i < |ms| ==> ms[i].source != "" && ms[i].source[0] == '^' && HasClass(g, ms[i].source[1..]))
    && KeptApart(g)
  }

  ghost predicate InOrder(g: seq<Production>) { forall p :: HasClass(g, p) ==> Orderly(p) }

  lemma ClearExact(g: seq<Production>, ms: seq<Matcher>)
    ensures Clear(LeavesProds(g), ms) <==> MayDrop(g, ms)
    ensures AllOrderly(LeavesProds(g)) <==> InOrder(g)
  {
    hide LeavesProds, EmittedMembers, Listed, HasClass, Separate, KeptApart, Orderly;
    forall p ensures Listed(LeavesProds(g), p) <==> HasClass(g, p) { ListedExact(g, p); }
    SeparateExact(g);
  }

  /** Whether the class at `i` is apart from the later ones and from every literal's head. */
  method ApartFromRest(keys: seq<string>, sets: map<string, seq<Interval>>, heads: seq<int>, i: nat) returns (r: bool)
    requires i < |keys| && forall p :: p in keys ==> p in sets
    ensures AllTidy(keys, sets) ==>
              (r <==> (forall j, cp :: i < j < |keys| ==> !(Has(sets[keys[i]], cp) && Has(sets[keys[j]], cp)))
                      && (forall cp :: cp in heads ==> !Has(sets[keys[i]], cp)))
  {
    hide Has, Tidy;
    var j := i + 1;
    while j < |keys|
      invariant i < j <= |keys|
      invariant AllTidy(keys, sets) ==> forall l, cp :: i < l < j ==> !(Has(sets[keys[i]], cp) && Has(sets[keys[l]], cp))
    {
      var meet := RangesIntersect(sets[keys[i]], sets[keys[j]]);
      if meet { return false; }
      j := j + 1;
    }
    var k := 0;
    while k < |heads|
      invariant k <= |heads|
      invariant AllTidy(keys, sets) ==> forall l :: 0 <= l < k ==> !Has(sets[keys[i]], heads[l])
    {
      var holds := RangesContain(sets[keys[i]], heads[k]);
      if holds { return false; }
      k := k + 1;
    }
    r := true;
  }

  /** Every class of the grammar has its ranges in order. */
  ghost predicate AllOrderly(ls: seq<Element>) { forall p :: Listed(ls, p) ==> Orderly(p) }

  /** Flag every class matcher eager, where that is safe; otherwise leave them all as they are. */
  method MarkClassesEager(g: seq<Production>, ms: array<Matcher>) returns (r: bool)
    modifies ms
    ensures InOrder(g) ==> (r <==> MayDrop(g, old(ms[..])))
    ensures forall i :: 0 <= i < ms.Length ==> ms[i] == if r then old(ms[i]).(eager := true) else old(ms[i])
  {
    hide EmittedMembers, InClass, Has, Tidy, Listed, Heads, Gathered, Meant, Orderly, AllOrderly, AllTidy, Separate, MayDrop, InOrder;
    ClearExact(g, ms[..]);
    if ms.Length == 0 { return false; }
    var ls := LeavesProds(g);
    var usable, keys, sets, heads := CollectTerminals(ls);
    if !usable { return false; }
    GatheredParts(ls, keys, sets);
    var i := 0;
    while i < ms.Length
      invariant i <= ms.Length
      invariant forall k :: 0 <= k < i ==> Known(ls, ms[k].source)
      invariant ms[..] == old(ms[..])
    {
      var source := ms[i].source;
      if source == "" || source[0] != '^' || source[1..] !in keys {
        assert !Known(ls, old(ms[..])[i].source);
        return false;
      }
      i := i + 1;
    }
    i := 0;
    while i < |keys|
      invariant i <= |keys|
      invariant AllTidy(keys, sets) ==> forall k, j, cp :: 0 <= k < i && k < j < |keys| ==> !(Has(sets[keys[k]], cp) && Has(sets[keys[j]], cp))
      invariant AllTidy(keys, sets) ==> forall k, cp :: 0 <= k < i && cp in heads ==> !Has(sets[keys[k]], cp)
      invariant ms[..] == old(ms[..])
    {
      var apart := ApartFromRest(keys, sets, heads, i);
      if !apart {
        if AllOrderly(ls) { MetKeys(ls, keys, sets, heads, i); }
        return false;
      }
      i := i + 1;
    }
    if AllOrderly(ls) { ApartKeys(ls, keys, sets, heads); }
    i := 0;
    while i < ms.Length
      invariant i <= ms.Length
      invariant forall k :: 0 <= k < ms.Length ==> ms[k] == if k < i then old(ms[k]).(eager := true) else old(ms[k])
    {
      ms[i] := ms[i].(eager := true);
      i := i + 1;
    }
    r := true;
  }

  lemma GatheredParts(ls: seq<Element>, keys: seq<string>, sets: map<string, seq<Interval>>)
    requires Gathered(ls, keys, sets) && Meant(keys, sets) && forall p :: Listed(ls, p) ==> EmittedMembers(p).Some?
    ensures forall p :: p in keys <==> Listed(ls, p)
    ensures forall p :: p in keys ==> p in sets
    ensures AllOrderly(ls) ==> AllTidy(keys, sets)
  {
    hide EmittedMembers, Listed, Orderly, Tidy, Has;
  }

  lemma MetKeys(ls: seq<Element>, keys: seq<string>, sets: map<string, seq<Interval>>, heads: seq<int>, i: nat)
    requires Gathered(ls, keys, sets) && Meant(keys, sets) && AllOrderly(ls) && i < |keys| && forall cp :: cp in heads <==> Heads(ls, cp)
    requires !((forall j, cp :: i < j < |keys| ==> !(Has(sets[keys[i]], cp) && Has(sets[keys[j]], cp)))
               && (forall cp :: cp in heads ==> !Has(sets[keys[i]], cp)))
    ensures !Separate(ls)
  {
    hide EmittedMembers, InPattern, Has, Tidy, Listed, Heads, Orderly;
    if !(forall j, cp :: i < j < |keys| ==> !(Has(sets[keys[i]], cp) && Has(sets[keys[j]], cp))) {
      var j, cp :| i < j < |keys| && Has(sets[keys[i]], cp) && Has(sets[keys[j]], cp);
      assert keys[i] in keys && keys[j] in keys;
      assert InPattern(keys[i], cp) && InPattern(keys[j], cp);
    } else {
      var cp :| cp in heads && Has(sets[keys[i]], cp);
      assert keys[i] in keys;
      assert InPattern(keys[i], cp);
    }
  }

  lemma ApartKeys(ls: seq<Element>, keys: seq<string>, sets: map<string, seq<Interval>>, heads: seq<int>)
    requires Gathered(ls, keys, sets) && Meant(keys, sets) && AllOrderly(ls) && (forall p :: Listed(ls, p) ==> EmittedMembers(p).Some?)
    requires forall cp :: cp in heads <==> Heads(ls, cp)
    requires forall k, j, cp :: 0 <= k < j < |keys| ==> !(Has(sets[keys[k]], cp) && Has(sets[keys[j]], cp))
    requires forall k, cp :: 0 <= k < |keys| && cp in heads ==> !Has(sets[keys[k]], cp)
    ensures Separate(ls)
  {
    hide EmittedMembers, InPattern, Has, Tidy, Listed, Heads, Orderly;
    forall p, q, cp | Listed(ls, p) && Listed(ls, q) && p != q ensures !(InPattern(p, cp) && InPattern(q, cp)) {
      assert p in keys && q in keys;
      var k :| 0 <= k < |keys| && keys[k] == p;
      var j :| 0 <= j < |keys| && keys[j] == q;
      assert Has(sets[p], cp) <==> InPattern(p, cp);
      assert Has(sets[q], cp) <==> InPattern(q, cp);
      assert k < j || j < k;
    }
    forall p, cp | Listed(ls, p) && Heads(ls, cp) ensures !InPattern(p, cp) {
      assert p in keys;
      var k :| 0 <= k < |keys| && keys[k] == p;
      assert Has(sets[p], cp) <==> InPattern(p, cp);
    }
  }

  // ---- what it buys: the lexer with and without its gate

  /** A class matcher at a character. */
  predicate Fires(m: Matcher, ch: char) { m.source != "" && Holds(m.source[1..], m.flags, ch) }

  /** The first matcher from `i` on that is offered here, or eager, and fires. */
  function FirstClass(ms: seq<Matcher>, offered: set<nat>, ch: char, i: nat): (r: Option<nat>)
    ensures r.Some? ==> i <= r.value < |ms| && Fires(ms[r.value], ch) && (r.value in offered || ms[r.value].eager)
    ensures r.None? ==> forall k: nat :: i <= k < |ms| && (k in offered || ms[k].eager) ==> !Fires(ms[k], ch)
    decreases |ms| - i
  {
    if |ms| <= i then None
    else if (i in offered || ms[i].eager) && Fires(ms[i], ch) then Some(i)
    else FirstClass(ms, offered, ch, i + 1)
  }

  /** The longest literal `t` starts with. */
  function LongestLiteral(literals: seq<string>, t: string): (r: Option<string>)
    ensures r.Some? ==> r.value in literals && r.value <= t && forall l :: l in literals && l <= t ==> |l| <= |r.value|
    ensures r.None? ==> forall l :: l in literals ==> !(l <= t)
  {
    if literals == [] then None
    else
      var rest := LongestLiteral(literals[1..], t);
      assert literals == [literals[0]] + literals[1..];
      if literals[0] <= t && (rest.None? || |rest.value| <= |literals[0]|) then Some(literals[0]) else rest
  }

  datatype Lexed = ClassToken(index: nat) | LiteralToken(text: string) | NoToken

  /** The engine's lexer at one position: class matchers first, then the fixed tokens. */
  function LexAt(ms: seq<Matcher>, literals: seq<string>, offered: set<nat>, t: string): (r: Lexed) {
    if t == "" then NoToken
    else if FirstClass(ms, offered, t[0], 0).Some? then ClassToken(FirstClass(ms, offered, t[0], 0).value)
    else match LongestLiteral(literals, t) case None => NoToken case Some(l) => LiteralToken(l)
  }

  /** The gate stands open to this matcher here, and it fires. */
  predicate Open(ms: seq<Matcher>, offered: set<nat>, i: nat, ch: char)
    requires i < |ms|
  {
    (i in offered || ms[i].eager) && Fires(ms[i], ch)
  }

  predicate Shut(ms: seq<Matcher>, offered: set<nat>, n: nat, ch: char)
    requires n <= |ms|
  {
    forall k: nat :: k < n ==> !Open(ms, offered, k, ch)
  }

  lemma {:induction false} FirstOpen(ms: seq<Matcher>, offered: set<nat>, ch: char, i: nat)
    requires i <= |ms| && Shut(ms, offered, i, ch)
    ensures match FirstClass(ms, offered, ch, i)
            case Some(k) => k < |ms| && Open(ms, offered, k, ch) && Shut(ms, offered, k, ch)
            case None => Shut(ms, offered, |ms|, ch)
    decreases |ms| - i
  {
    hide Fires;
    if i < |ms| && !Open(ms, offered, i, ch) { FirstOpen(ms, offered, ch, i + 1); }
  }

  /** A token is the first class that the gate lets through, or else the longest literal. */
  lemma LexAtExact(ms: seq<Matcher>, literals: seq<string>, offered: set<nat>, t: string, r: Lexed)
    ensures LexAt(ms, literals, offered, t) == r <==>
            match r
            case ClassToken(i) => t != "" && i < |ms| && Open(ms, offered, i, t[0]) && Shut(ms, offered, i, t[0])
            case LiteralToken(l) =>
              t != "" && Shut(ms, offered, |ms|, t[0]) && l in literals && l <= t && forall m :: m in literals && m <= t ==> |m| <= |l|
            case NoToken => t == "" || (Shut(ms, offered, |ms|, t[0]) && forall l :: l in literals ==> !(l <= t))
  {
    hide Fires, FirstClass;
    var longest := LongestLiteral(literals, t);
    if r.LiteralToken? && longest.Some? && r.text <= t && |r.text| == |longest.value| {
      assert r.text == t[..|r.text|] && longest.value == t[..|r.text|];
    }
    if t != "" { FirstOpen(ms, offered, t[0], 0); }
  }

  function Flagged(ms: seq<Matcher>, eager: bool): (fs: seq<Matcher>)
    ensures |fs| == |ms| && forall i :: 0 <= i < |ms| ==> fs[i] == ms[i].(eager := eager)
  {
    seq(|ms|, i requires 0 <= i < |ms| => ms[i].(eager := eager))
  }

  lemma FiresIn(m: Matcher, ch: char)
    requires m.source != "" && Fires(m, ch) && Emitted(m.source[1..], m.flags)
    ensures InPattern(m.source[1..], ch as int)
  {
    hide EmitClass, ReadClassPattern, EmittedMembers, InItems, Holds;
    var pattern := m.source[1..];
    if pattern == ANY_PATTERN {
      AnyMembers();
    } else {
      var c := ReadClassPattern(pattern).value;
      EmittedReads(c);
      EmittedHolds(c, ch);
    }
  }

  lemma AnyMembers()
    ensures forall cp :: 0 <= cp <= MAX_CP ==> InPattern(ANY_PATTERN, cp)
  {
    var its := [Range(0, MAX_CP)];
    assert its[0] in its;
  }

  /** A pattern with its flags as the decoder emits them, or `.`'s. */
  predicate Emitted(pattern: string, flags: string) {
    (pattern == ANY_PATTERN && flags == "u") || EmittedClass(pattern, flags)
  }

  /** A match token made from a class terminal. */
  predicate MadeOf(m: Matcher, l: Element) { l.Regex? && m.source == "^" + l.pattern && m.flags == l.flags }

  predicate MadeOfOne(ls: seq<Element>, m: Matcher) { exists l <- ls :: MadeOf(m, l) }

  /** Match tokens made from the grammar's classes, each from one of them. */
  predicate MadeFrom(ls: seq<Element>, ms: seq<Matcher>) { forall i :: 0 <= i < |ms| ==> MadeOfOne(ls, ms[i]) }

  /** Classes as the decoder emits them: those of every parsed grammar. */
  predicate AllEmitted(ls: seq<Element>) { forall l <- ls :: l.Regex? ==> Emitted(l.pattern, l.flags) }

  lemma Made(ls: seq<Element>, ms: seq<Matcher>, i: nat)
    requires AllEmitted(ls) && MadeFrom(ls, ms) && i < |ms|
    ensures Known(ls, ms[i].source) && Emitted(ms[i].source[1..], ms[i].flags)
  {
    assert MadeOfOne(ls, ms[i]);
    var l :| l in ls && MadeOf(ms[i], l);
    assert ("^" + l.pattern)[1..] == l.pattern;
  }

  predicate LiteralsOf(ls: seq<Element>, literals: seq<string>) {
    forall l :: l in literals ==> l != "" && Heads(ls, l[0] as int)
  }

  /** What is asked of the tokens the lexer has. */
  ghost predicate Tokens(ls: seq<Element>, ms: seq<Matcher>, literals: seq<string>) {
    Separate(ls) && AllEmitted(ls) && MadeFrom(ls, ms) && LiteralsOf(ls, literals)
  }

  lemma OneClass(ls: seq<Element>, ms: seq<Matcher>, i: nat, j: nat, ch: char)
    requires Separate(ls) && AllEmitted(ls) && MadeFrom(ls, ms) && i < |ms| && j < |ms| && Fires(ms[i], ch) && Fires(ms[j], ch)
    ensures ms[i].source == ms[j].source
  {
    hide Fires, InPattern, Listed, Emitted, Heads, MadeFrom, AllEmitted;
    Made(ls, ms, i);
    Made(ls, ms, j);
    FiresIn(ms[i], ch);
    FiresIn(ms[j], ch);
    assert ms[i].source == ['^'] + ms[i].source[1..] && ms[j].source == ['^'] + ms[j].source[1..];
  }

  lemma NoLiteral(ls: seq<Element>, ms: seq<Matcher>, literals: seq<string>, i: nat, t: string, l: string)
    requires Separate(ls) && AllEmitted(ls) && MadeFrom(ls, ms) && LiteralsOf(ls, literals)
    requires i < |ms| && t != "" && Fires(ms[i], t[0]) && l in literals
    ensures !(l <= t)
  {
    hide Fires, InPattern, Listed, Emitted, Heads, MadeFrom, AllEmitted;
    assert l <= t ==> l[0] == t[0];
    Made(ls, ms, i);
    FiresIn(ms[i], t[0]);
  }

  /** The same token: the same literal, or classes with one source. */
  predicate SameToken(ms: seq<Matcher>, a: Lexed, b: Lexed) {
    a == b || (a.ClassToken? && b.ClassToken? && a.index < |ms| && b.index < |ms| && ms[a.index].source == ms[b.index].source)
  }

  /** Only matchers of one source fire at a character, so the gate can only hide them. */
  lemma GatedClass(ms: seq<Matcher>, offered: set<nat>, ch: char)
    requires forall i: nat, j: nat :: i < |ms| && j < |ms| && Fires(ms[i], ch) && Fires(ms[j], ch) ==> ms[i].source == ms[j].source
    ensures var gated, eager := FirstClass(Flagged(ms, false), offered, ch, 0), FirstClass(Flagged(ms, true), offered, ch, 0);
            && (gated.Some? ==> eager.Some? && ms[eager.value].source == ms[gated.value].source)
            && (eager.Some? <==> exists i: nat :: i < |ms| && Fires(ms[i], ch))
  {
    hide FirstClass;
    forall i: nat | i < |ms| ensures Fires(Flagged(ms, true)[i], ch) <==> Fires(ms[i], ch) { }
    forall i: nat | i < |ms| ensures Fires(Flagged(ms, false)[i], ch) <==> Fires(ms[i], ch) { }
  }

  /** Once the test has passed, the lexer without its gate returns every token the gated one
      returns, whatever the parser expects; and at any character the classes that fire have one
      source, and none fires where a literal matches. */
  lemma EagerSafe(ls: seq<Element>, ms: seq<Matcher>, literals: seq<string>, offered: set<nat>, t: string)
    requires Tokens(ls, ms, literals)
    ensures var gated := LexAt(Flagged(ms, false), literals, offered, t);
            gated != NoToken ==> SameToken(ms, gated, LexAt(Flagged(ms, true), literals, offered, t))
    ensures t != "" ==> forall i: nat, j: nat :: i < |ms| && j < |ms| && Fires(ms[i], t[0]) && Fires(ms[j], t[0]) ==> ms[i].source == ms[j].source
    ensures t != "" ==> forall i: nat, l :: i < |ms| && l in literals && Fires(ms[i], t[0]) ==> !(l <= t)
  {
    hide Separate, AllEmitted, MadeFrom, LiteralsOf, Fires, FirstClass, LongestLiteral;
    if t != "" {
      forall i: nat, j: nat | i < |ms| && j < |ms| && Fires(ms[i], t[0]) && Fires(ms[j], t[0]) ensures ms[i].source == ms[j].source {
        OneClass(ls, ms, i, j, t[0]);
      }
      forall i: nat, l | i < |ms| && l in literals && Fires(ms[i], t[0]) ensures !(l <= t) {
        NoLiteral(ls, ms, literals, i, t, l);
      }
      GatedClass(ms, offered, t[0]);
    }
  }

  // ---- a parsed grammar is always fit for the test

  lemma {:induction false} CanonicalLeaves(el: Element)
    requires Canonical(el)
    ensures forall l :: l in Leaves(el) ==> Canonical(l)
    decreases el, 0
  {
    match el
    case Group(alts) => CanonicalLeavesAlts(alts);
    case Opt(inner) => CanonicalLeaves(inner);
    case Star(inner) => CanonicalLeaves(inner);
    case Plus(inner) => CanonicalLeaves(inner);
    case Rep(_, _, inner) => CanonicalLeaves(inner);
    case _ =>
  }

  lemma {:induction false} CanonicalLeavesSeq(els: seq<Element>)
    requires CanonicalSeq(els)
    ensures forall l :: l in LeavesSeq(els) ==> Canonical(l)
    decreases els, 1
  {
    hide Canonical, Leaves;
    if els != [] {
      CanonicalLeaves(els[0]);
      CanonicalLeavesSeq(els[1..]);
    }
  }

  lemma {:induction false} CanonicalLeavesAlts(alts: seq<Sequence>)
    requires CanonicalAlts(alts)
    ensures forall l :: l in LeavesAlts(alts) ==> Canonical(l)
    decreases alts, 2
  {
    hide Canonical, LeavesSeq, CanonicalSeq;
    CanonicalLeavesSeq(alts[0].els);
    if |alts| > 1 { CanonicalLeavesAlts(alts[1..]); } else { assert alts[1..] == [] && LeavesAlts([]) == []; }
  }

  lemma {:induction false} CanonicalLeavesProds(ps: seq<Production>)
    requires CanonicalProds(ps)
    ensures forall l :: l in LeavesProds(ps) ==> Canonical(l)
  {
    hide Canonical, LeavesAlts, CanonicalAlts, LegalName;
    if ps != [] {
      CanonicalLeavesAlts(ps[0].alts);
      CanonicalLeavesProds(ps[1..]);
    }
  }

  lemma AnyOrdered()
    ensures EmittedMembers(ANY_PATTERN).Some? && Orderly(ANY_PATTERN)
  {
  }

  lemma EmittedLeaves(ps: seq<Production>)
    requires CanonicalProds(ps)
    ensures AllEmitted(LeavesProds(ps)) && AllOrderly(LeavesProds(ps))
    ensures forall p :: Listed(LeavesProds(ps), p) ==> EmittedMembers(p).Some?
  {
    hide LeavesProds, ReadClassPattern, EmitClass, EmittedMembers, CanonicalProds;
    CanonicalLeavesProds(ps);
    forall p | Listed(LeavesProds(ps), p) ensures EmittedMembers(p).Some? && Orderly(p) {
      var l :| l in LeavesProds(ps) && l.Regex? && l.pattern == p;
      if p == ANY_PATTERN { AnyOrdered(); } else { EmittedReads(ReadClassPattern(p).value); }
    }
  }

  /** Every class of a parsed grammar is read back, in order, and spelled and flagged as the decoder
      emits it. */
  lemma ParsedClasses(ps: seq<Production>, x: Element)
    requires CanonicalProds(ps) && WithinProds(x, ps) && x.Regex?
    ensures EmittedMembers(x.pattern).Some? && Orderly(x.pattern) && Emitted(x.pattern, x.flags)
  {
    hide LeavesProds, EmittedMembers, CanonicalProds, Orderly, Emitted, WithinProds;
    EmittedLeaves(ps);
    LeavesProdsExact(ps, x);
    assert Listed(LeavesProds(ps), x.pattern);
  }

  /** Match tokens made from the classes of the grammar, each from one of them. */
  ghost predicate MadeFromGrammar(g: seq<Production>, ms: seq<Matcher>) {
    forall i :: 0 <= i < |ms| ==> exists x :: WithinProds(x, g) && MadeOf(ms[i], x)
  }

  lemma MadeExact(g: seq<Production>, ms: seq<Matcher>)
    requires MadeFromGrammar(g, ms)
    ensures MadeFrom(LeavesProds(g), ms)
  {
    hide LeavesProds, WithinProds;
    forall i | 0 <= i < |ms| ensures MadeOfOne(LeavesProds(g), ms[i]) {
      var x :| WithinProds(x, g) && MadeOf(ms[i], x);
      LeavesProdsExact(g, x);
    }
  }

  /** For a grammar the front-end handed on, the answer of `MarkClassesEager` decides: it is true
      exactly when there are tokens and nothing is in another's way, and then dropping the gate
      changes no token. */
  lemma ParsedEager(caps: bool, src: string, ms: seq<Matcher>, literals: seq<string>, offered: set<nat>, t: string)
    requires ParseGbnf(caps, src).Ok? && MadeFromGrammar(ParseGbnf(caps, src).value, ms)
    requires forall l :: l in literals ==> l != "" && HasHead(ParseGbnf(caps, src).value, l[0] as int)
    ensures var g := ParseGbnf(caps, src).value;
            && InOrder(g)
            && (MayDrop(g, ms) <==> ms != [] && KeptApart(g))
            && (MayDrop(g, ms) ==>
                  var gated := LexAt(Flagged(ms, false), literals, offered, t);
                  gated != NoToken ==> SameToken(ms, gated, LexAt(Flagged(ms, true), literals, offered, t)))
  {
    hide ParseGbnf, LeavesProds, CanonicalProds, Check, Separate, KeptApart, MadeFrom, MadeFromGrammar, AllEmitted, Known, LexAt,
      MayDrop, InOrder, AllOrderly, Heads, HasHead;
    var g := ParseGbnf(caps, src).value;
    var ls := LeavesProds(g);
    ParsesCanonical(caps, src);
    EmittedLeaves(g);
    ClearExact(g, ms);
    SeparateExact(g);
    MadeExact(g, ms);
    forall l | l in literals ensures Heads(ls, l[0] as int) { HeadsExact(g, l[0] as int); }
    forall i: nat | i < |ms| ensures Known(ls, ms[i].source) { Made(ls, ms, i); }
    if Clear(ls, ms) { EagerSafe(ls, ms, literals, offered, t); }
  }
}
