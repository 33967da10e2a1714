/** From raw productions to a grammar: the last definition of a name wins, then tokenizer
    terminals, a missing `root` and undefined references are refused, in that order. */
module Validate {
  import opened Text
  import opened Ir

  // ---- duplicates collapse

  predicate Defines(ps: seq<Production>, name: string) { exists k :: 0 <= k < |ps| && ps[k].name == name }

  /** Names in the order of their first appearance. */
  function FirstNames(ps: seq<Production>): (ns: seq<string>)
    ensures Distinct(ns)
    ensures forall n :: n in ns <==> Defines(ps, n)
  {
    if ps == [] then []
    else
      var p := ps[|ps| - 1];
      var ns := FirstNames(ps[..|ps| - 1]);
      if p.name in ns then ns else ns + [p.name]
  }

  /** The last production of that name. */
  function LastOf(ps: seq<Production>, name: string): (p: Production)
    requires Defines(ps, name)
    ensures p.name == name
    ensures exists k :: 0 <= k < |ps| && ps[k] == p && forall j :: k < j < |ps| ==> ps[j].name != name
  {
    if ps[|ps| - 1].name == name then ps[|ps| - 1] else LastOf(ps[..|ps| - 1], name)
  }

  function Dedupe(ps: seq<Production>): (r: seq<Production>)
    ensures Names(r) == FirstNames(ps)
    ensures forall i :: 0 <= i < |r| ==> FirstNames(ps)[i] in FirstNames(ps) && r[i] == LastOf(ps, FirstNames(ps)[i])
  {
    var ns := FirstNames(ps);
    seq(|ns|, i requires 0 <= i < |ns| => assert ns[i] in ns; LastOf(ps, ns[i]))
  }

  lemma FirstNamesStep(ps: seq<Production>, i: nat)
    requires i < |ps|
    ensures FirstNames(ps[..i + 1]) ==
            if ps[i].name in FirstNames(ps[..i]) then FirstNames(ps[..i]) else FirstNames(ps[..i]) + [ps[i].name]
  {
    var after := ps[..i + 1];
    assert after[..|after| - 1] == ps[..i] && after[|after| - 1] == ps[i];
  }

  lemma LastOfStep(ps: seq<Production>, i: nat, name: string)
    requires i < |ps| && (Defines(ps[..i], name) || name == ps[i].name)
    ensures Defines(ps[..i + 1], name)
    ensures LastOf(ps[..i + 1], name) == if ps[i].name == name then ps[i] else LastOf(ps[..i], name)
  {
    var before, after := ps[..i], ps[..i + 1];
    assert after[..|after| - 1] == before && after[|after| - 1] == ps[i];
    if Defines(before, name) {
      var k :| 0 <= k < |before| && before[k].name == name;
      assert after[k] == before[k];
    }
  }

  lemma NoNames(ps: seq<Production>)
    ensures FirstNames(ps[..0]) == []
  {
  }

  /** The reduction as it runs: a map from names to definitions, and the order of the names. */
  method DedupeLoop(ps: seq<Production>) returns (r: seq<Production>)
    ensures r == Dedupe(ps)
  {
    hide FirstNames, LastOf, Defines;
    var byName: map<string, Production> := map[];
    var order: seq<string> := [];
    var i := 0;
    NoNames(ps);
    while i < |ps|
      invariant i <= |ps|
      invariant order == FirstNames(ps[..i])
      invariant forall n :: n in byName <==> n in order
      invariant forall n :: n in order ==> byName[n] == LastOf(ps[..i], n)
    {
      var p := ps[i];
      FirstNamesStep(ps, i);
      forall n | n in order || n == p.name ensures Defines(ps[..i + 1], n) && LastOf(ps[..i + 1], n) ==
                                                   if n == p.name then p else LastOf(ps[..i], n) { LastOfStep(ps, i, n); }
      if p.name !in byName { order := order + [p.name]; }
      byName := byName[p.name := p];
      i := i + 1;
    }
    assert ps[..i] == ps;
    r := seq(|order|, k requires 0 <= k < |order| => byName[order[k]]);
  }

  /** A list without duplicates is left as it is: so reducing twice is reducing once. */
  lemma {:induction false} DedupeDistinct(ps: seq<Production>)
    requires Distinct(Names(ps))
    ensures Dedupe(ps) == ps
  {
    NamesKept(ps);
    hide FirstNames, LastOf;
    forall i | 0 <= i < |ps| ensures Dedupe(ps)[i] == ps[i] {
      assert Names(ps)[i] == ps[i].name;
      OnlyOne(ps, i);
    }
  }

  lemma {:induction false} OnlyOne(ps: seq<Production>, i: nat)
    requires Distinct(Names(ps)) && i < |ps|
    ensures Defines(ps, ps[i].name) && LastOf(ps, ps[i].name) == ps[i]
  {
    var rest, last := ps[..|ps| - 1], |ps| - 1;
    if i < last {
      assert Names(ps)[i] == ps[i].name && Names(ps)[last] == ps[last].name;
      assert forall k :: 0 <= k < last ==> Names(rest)[k] == Names(ps)[k];
      OnlyOne(rest, i);
    }
  }

  lemma {:induction false} NamesKept(ps: seq<Production>)
    requires Distinct(Names(ps))
    ensures FirstNames(ps) == Names(ps)
  {
    if ps != [] {
      var rest, p := ps[..|ps| - 1], ps[|ps| - 1];
      assert forall i :: 0 <= i < |rest| ==> Names(rest)[i] == Names(ps)[i];
      NamesKept(rest);
      assert Names(ps)[|ps| - 1] == p.name;
      assert forall k :: 0 <= k < |rest| ==> rest[k].name == Names(ps)[k] != p.name;
      assert Names(ps) == Names(rest) + [p.name];
    }
  }

  lemma DedupeIdempotent(ps: seq<Production>)
    ensures Dedupe(Dedupe(ps)) == Dedupe(ps)
  {
    DedupeDistinct(Dedupe(ps));
  }

  // ---- the reduced list, said outright

  /** The name first appears at `k`. */
  predicate FirstAt(ps: seq<Production>, name: string, k: nat) {
    k < |ps| && ps[k].name == name && forall j :: 0 <= j < k ==> ps[j].name != name
  }

  /** The production is the last of its name. */
  predicate LastAt(ps: seq<Production>, p: Production, k: nat) {
    k < |ps| && ps[k] == p && forall j :: k < j < |ps| ==> ps[j].name != p.name
  }

  ghost predicate LastOfThem(ps: seq<Production>, p: Production) { exists k: nat :: LastAt(ps, p, k) }

  /** Definitions that are the last of their names, in the order in which the names first appear. */
  ghost predicate InPlace(ps: seq<Production>, r: seq<Production>) {
    && (forall i :: 0 <= i < |r| ==> LastOfThem(ps, r[i]))
    && (forall i, j, k, l :: 0 <= i < j < |r| && FirstAt(ps, r[i].name, k) && FirstAt(ps, r[j].name, l) ==> k < l)
  }

  /** And one for each name. */
  ghost predicate LastInPlace(ps: seq<Production>, r: seq<Production>) {
    InPlace(ps, r) && forall k :: 0 <= k < |ps| ==> Defines(r, ps[k].name)
  }

  lemma {:induction false} NamesFirst(ps: seq<Production>, i: nat, j: nat, k: nat, l: nat)
    requires i < j < |FirstNames(ps)| && FirstAt(ps, FirstNames(ps)[i], k) && FirstAt(ps, FirstNames(ps)[j], l)
    ensures k < l
    decreases |ps|
  {
    var rest, p := ps[..|ps| - 1], ps[|ps| - 1];
    var ns := FirstNames(rest);
    assert forall m :: 0 <= m < |rest| ==> rest[m] == ps[m];
    assert ns[..] == ns && i < |ns|;
    assert ns[i] in ns;
    var m :| 0 <= m < |rest| && rest[m].name == ns[i];
    assert k <= m;
    if j < |ns| {
      assert ns[j] in ns;
      var m' :| 0 <= m' < |rest| && rest[m'].name == ns[j];
      assert l <= m';
      NamesFirst(rest, i, j, k, l);
    } else {
      assert p.name !in ns && ns + [p.name] == FirstNames(ps);
      assert forall m :: 0 <= m < |rest| ==> rest[m].name in ns;
    }
  }

  /** The reduction gives the one list that holds the last definition of each name in the place of
      the first. */
  lemma DedupeExact(ps: seq<Production>, r: seq<Production>)
    ensures r == Dedupe(ps) <==> LastInPlace(ps, r)
  {
    DedupeInPlace(ps);
    if LastInPlace(ps, r) { OneInPlace(ps, r, Dedupe(ps)); }
  }

  lemma DedupeInPlace(ps: seq<Production>)
    ensures LastInPlace(ps, Dedupe(ps))
  {
    var r, ns := Dedupe(ps), FirstNames(ps);
    hide FirstNames, LastOf;
    assert forall i :: 0 <= i < |r| ==> Names(r)[i] == r[i].name == ns[i];
    forall k | 0 <= k < |ps| ensures Defines(r, ps[k].name) {
      assert ps[k].name in ns;
      var i :| 0 <= i < |ns| && ns[i] == ps[k].name;
      assert r[i].name == ps[k].name;
    }
    forall i | 0 <= i < |r| ensures LastOfThem(ps, r[i]) {
      assert ns[i] in ns;
      var k :| 0 <= k < |ps| && ps[k] == r[i] && forall j :: k < j < |ps| ==> ps[j].name != ns[i];
      assert LastAt(ps, r[i], k);
    }
    forall i, j, k, l | 0 <= i < j < |r| && FirstAt(ps, r[i].name, k) && FirstAt(ps, r[j].name, l) ensures k < l {
      NamesFirst(ps, i, j, k, l);
    }
  }

  lemma FirstSomewhere(ps: seq<Production>, k: nat) returns (m: nat)
    requires k < |ps|
    ensures m <= k && FirstAt(ps, ps[k].name, m)
  {
    m := 0;
    while ps[m].name != ps[k].name
      invariant m <= k && forall j :: 0 <= j < m ==> ps[j].name != ps[k].name
      decreases k - m
    {
      m := m + 1;
    }
  }

  lemma InPlaceFirst(ps: seq<Production>, p: Production) returns (m: nat)
    requires LastOfThem(ps, p)
    ensures FirstAt(ps, p.name, m)
  {
    var k: nat :| LastAt(ps, p, k);
    m := FirstSomewhere(ps, k);
  }

  lemma Apart(ps: seq<Production>, r: seq<Production>, i: nat, j: nat)
    requires InPlace(ps, r) && i < j < |r|
    ensures r[i].name != r[j].name
  {
    hide FirstAt, LastOfThem;
    var k := InPlaceFirst(ps, r[i]);
    var l := InPlaceFirst(ps, r[j]);
    assert k < l;
  }

  lemma OneLast(ps: seq<Production>, p: Production, q: Production)
    requires LastOfThem(ps, p) && LastOfThem(ps, q) && p.name == q.name
    ensures p == q
  {
    var k: nat :| LastAt(ps, p, k);
    var l: nat :| LastAt(ps, q, l);
    assert !(k < l) && !(l < k);
  }

  /** The definition that ends one list ends the other. */
  lemma SameEnd(ps: seq<Production>, a: seq<Production>, b: seq<Production>)
    requires InPlace(ps, a) && InPlace(ps, b) && a != [] && b != []
    requires Defines(b, a[|a| - 1].name) && Defines(a, b[|b| - 1].name)
    ensures a[|a| - 1] == b[|b| - 1]
  {
    hide FirstAt, LastOfThem;
    var p, q := a[|a| - 1], b[|b| - 1];
    var i :| 0 <= i < |a| && a[i].name == q.name;
    var j :| 0 <= j < |b| && b[j].name == p.name;
    var k := InPlaceFirst(ps, p);
    var l := InPlaceFirst(ps, q);
    assert p.name == q.name;
    OneLast(ps, p, q);
  }

  lemma {:induction false} SameInPlace(ps: seq<Production>, a: seq<Production>, b: seq<Production>)
    requires InPlace(ps, a) && InPlace(ps, b) && forall n :: Defines(a, n) <==> Defines(b, n)
    ensures a == b
    decreases |a|
  {
    hide FirstAt, LastOfThem;
    if a == [] {
      assert forall i :: 0 <= i < |b| ==> Defines(b, b[i].name);
    } else {
      var p := a[|a| - 1];
      assert Defines(a, p.name);
      assert Defines(b, b[|b| - 1].name);
      SameEnd(ps, a, b);
      var c, d := a[..|a| - 1], b[..|b| - 1];
      forall n ensures Defines(c, n) <==> Defines(d, n) {
        Shorter(ps, a, n);
        Shorter(ps, b, n);
      }
      SameInPlace(ps, c, d);
      assert a == c + [p] && b == d + [p];
    }
  }

  lemma Shorter(ps: seq<Production>, a: seq<Production>, n: string)
    requires InPlace(ps, a) && a != []
    ensures Defines(a[..|a| - 1], n) <==> Defines(a, n) && n != a[|a| - 1].name
  {
    hide InPlace;
    var c := a[..|a| - 1];
    if Defines(c, n) {
      var i :| 0 <= i < |c| && c[i].name == n;
      assert a[i].name == n;
      Apart(ps, a, i, |a| - 1);
    }
    if Defines(a, n) && n != a[|a| - 1].name {
      var i :| 0 <= i < |a| && a[i].name == n;
      assert c[i].name == n;
    }
  }

  lemma OneInPlace(ps: seq<Production>, a: seq<Production>, b: seq<Production>)
    requires LastInPlace(ps, a) && LastInPlace(ps, b)
    ensures a == b
  {
    hide InPlace;
    forall n ensures Defines(a, n) <==> Defines(b, n) {
      if Defines(a, n) { InPlaceNames(ps, a, n); }
      if Defines(b, n) { InPlaceNames(ps, b, n); }
    }
    SameInPlace(ps, a, b);
  }

  lemma InPlaceNames(ps: seq<Production>, a: seq<Production>, n: string)
    requires InPlace(ps, a) && Defines(a, n)
    ensures Defines(ps, n)
  {
    var i :| 0 <= i < |a| && a[i].name == n;
    assert LastOfThem(ps, a[i]);
    var k: nat :| LastAt(ps, a[i], k);
    assert ps[k].name == n;
  }

  // ---- looking for an element at any depth

  /** The first element, outermost first and left to right, that satisfies `p`. */
  function Find(el: Element, p: Element -> bool): (r: Option<Element>)
    decreases el, 0
  {
    if p(el) then Some(el)
    else match el
      case Group(alts) => FindAlts(alts, p)
      case Opt(inner) => Find(inner, p)
      case Star(inner) => Find(inner, p)
      case Plus(inner) => Find(inner, p)
      case Rep(_, _, inner) => Find(inner, p)
      case _ => None
  }

  function FindSeq(els: seq<Element>, p: Element -> bool): (r: Option<Element>)
    decreases els, 1
  {
    if els == [] then None
    else if Find(els[0], p).Some? then Find(els[0], p)
    else FindSeq(els[1..], p)
  }

  function FindAlts(alts: seq<Sequence>, p: Element -> bool): (r: Option<Element>)
    decreases alts, 2
  {
    if alts == [] then None
    else if FindSeq(alts[0].els, p).Some? then FindSeq(alts[0].els, p)
    else FindAlts(alts[1..], p)
  }

  function FindProds(ps: seq<Production>, p: Element -> bool): (r: Option<(string, Element)>) {
    if ps == [] then None
    else if FindAlts(ps[0].alts, p).Some? then Some((ps[0].name, FindAlts(ps[0].alts, p).value))
    else FindProds(ps[1..], p)
  }

  /** `x` stands somewhere in the element: itself, or inside. */
  predicate Within(x: Element, el: Element)
    decreases el, 0
  {
    x == el ||
    match el
    case Group(alts) => WithinAlts(x, alts)
    case Opt(inner) => Within(x, inner)
    case Star(inner) => Within(x, inner)
    case Plus(inner) => Within(x, inner)
    case Rep(_, _, inner) => Within(x, inner)
    case _ => false
  }

  predicate WithinSeq(x: Element, els: seq<Element>)
    decreases els, 1
  {
    exists i :: 0 <= i < |els| && Within(x, els[i])
  }

  predicate WithinAlts(x: Element, alts: seq<Sequence>)
    decreases alts, 2
  {
    exists i :: 0 <= i < |alts| && WithinSeq(x, alts[i].els)
  }

  predicate WithinProds(x: Element, ps: seq<Production>) {
    exists i :: 0 <= i < |ps| && WithinAlts(x, ps[i].alts)
  }

  lemma {:induction false} FindExact(el: Element, p: Element -> bool)
    ensures Find(el, p).Some? ==> p(Find(el, p).value) && Within(Find(el, p).value, el)
    ensures Find(el, p).None? ==> forall x :: Within(x, el) ==> !p(x)
    decreases el, 0
  {
    if !p(el) {
      match el
      case Group(alts) => FindAltsExact(alts, p);
      case Opt(inner) => FindExact(inner, p);
      case Star(inner) => FindExact(inner, p);
      case Plus(inner) => FindExact(inner, p);
      case Rep(_, _, inner) => FindExact(inner, p);
      case _ =>
    }
  }

  lemma {:induction false} FindSeqExact(els: seq<Element>, p: Element -> bool)
    ensures FindSeq(els, p).Some? ==> p(FindSeq(els, p).value) && WithinSeq(FindSeq(els, p).value, els)
    ensures FindSeq(els, p).None? ==> forall x :: WithinSeq(x, els) ==> !p(x)
    decreases els, 1
  {
    hide Find, Within;
    if els != [] {
      FindExact(els[0], p);
      if Find(els[0], p).None? {
        FindSeqExact(els[1..], p);
        assert forall i :: 0 <= i < |els| - 1 ==> els[1..][i] == els[i + 1];
      }
    }
  }

  lemma {:induction false} FindAltsExact(alts: seq<Sequence>, p: Element -> bool)
    ensures FindAlts(alts, p).Some? ==> p(FindAlts(alts, p).value) && WithinAlts(FindAlts(alts, p).value, alts)
    ensures FindAlts(alts, p).None? ==> forall x :: WithinAlts(x, alts) ==> !p(x)
    decreases alts, 2
  {
    hide FindSeq, WithinSeq;
    if alts != [] {
      FindSeqExact(alts[0].els, p);
      if FindSeq(alts[0].els, p).None? {
        FindAltsExact(alts[1..], p);
        assert forall i :: 0 <= i < |alts| - 1 ==> alts[1..][i] == alts[i + 1];
      }
    }
  }

  lemma {:induction false} FindProdsExact(ps: seq<Production>, p: Element -> bool)
    ensures FindProds(ps, p).Some? ==> p(FindProds(ps, p).value.1) && WithinProds(FindProds(ps, p).value.1, ps)
    ensures FindProds(ps, p).None? ==> forall x :: WithinProds(x, ps) ==> !p(x)
  {
    hide FindAlts, WithinAlts;
    if ps != [] {
      FindAltsExact(ps[0].alts, p);
      if FindAlts(ps[0].alts, p).None? {
        FindProdsExact(ps[1..], p);
        assert forall i :: 0 <= i < |ps| - 1 ==> ps[1..][i] == ps[i + 1];
      }
    }
  }

  // ---- the checks

  datatype CompileError =
    | TokenTerminal(rule: string, text: string)
    | NoRoot
    | Undefined(rule: string, name: string)

  predicate Dangles(names: seq<string>, el: Element) { el.Ref? && el.name !in names }

  function Check(ps: seq<Production>): (r: Option<CompileError>) {
    var tok := FindProds(ps, (el: Element) => el.TokTerm?);
    if tok.Some? && tok.value.1.TokTerm? then Some(TokenTerminal(tok.value.0, tok.value.1.text))
    else if ROOT !in Names(ps) then Some(NoRoot)
    else
      var ref := FindProds(ps, (el: Element) => Dangles(Names(ps), el));
      if ref.Some? && ref.value.1.Ref? then Some(Undefined(ref.value.0, ref.value.1.name)) else None
  }

  /** What validation admits, said of the elements themselves, at any depth. */
  ghost predicate Compiles(ps: seq<Production>) {
    && ROOT in Names(ps)
    && (forall x :: WithinProds(x, ps) ==> !x.TokTerm?)
    && (forall x :: WithinProds(x, ps) ==> !Dangles(Names(ps), x))
  }

  /** Validation is exact: it refuses precisely a tokenizer terminal at any depth, a grammar
      without `root`, and a reference at any depth to no rule. */
  lemma CheckExact(ps: seq<Production>)
    ensures Check(ps).None? <==> Compiles(ps)
    ensures Check(ps) == Some(NoRoot) ==> ROOT !in Names(ps)
    ensures Check(ps).Some? && Check(ps).value.TokenTerminal? ==>
              exists x :: WithinProds(x, ps) && x.TokTerm? && x.text == Check(ps).value.text
    ensures Check(ps).Some? && Check(ps).value.Undefined? ==>
              WithinProds(Ref(Check(ps).value.name), ps) && Check(ps).value.name !in Names(ps)
  {
    FindProdsExact(ps, (el: Element) => el.TokTerm?);
    FindProdsExact(ps, (el: Element) => Dangles(Names(ps), el));
    hide FindProds, WithinProds;
  }
}
