/** Sets of code points as the compiler holds them: lists of number pairs, merged, complemented,
    intersected and searched by loops. */
module Ranges {
  import opened Text
  import opened Spans

  datatype Interval = Interval(lo: nat, hi: nat)

  predicate Has(rs: seq<Interval>, cp: int) { exists i :: 0 <= i < |rs| && rs[i].lo <= cp <= rs[i].hi }

  predicate Upward(rs: seq<Interval>) { forall i :: 0 <= i < |rs| ==> rs[i].lo <= rs[i].hi }

  predicate Ascending(rs: seq<Interval>) { forall i, j :: 0 <= i < j < |rs| ==> rs[i].lo <= rs[j].lo }

  /** Sorted, disjoint and not touching. */
  predicate Tidy(rs: seq<Interval>) {
    Upward(rs) && forall i, j :: 0 <= i < j < |rs| ==> rs[i].hi + 1 < rs[j].lo
  }

  predicate InUnicode(rs: seq<Interval>) { forall i :: 0 <= i < |rs| ==> rs[i].hi <= MAX_CP }

  // ---- the same set, in bytes

  function CpOf(n: nat): (c: Cp)
    ensures Value(c) == n
  {
    var upper := n / 0x100;
    assert n == upper * 0x100 + n % 0x100 && upper == upper / 0x100 * 0x100 + upper % 0x100;
    Bytes(upper / 0x100, upper % 0x100, n % 0x100)
  }

  function Spanned(rs: seq<Interval>): (spans: seq<Span>)
    ensures |spans| == |rs|
    ensures forall i :: 0 <= i < |rs| ==> Value(spans[i].lo) == rs[i].lo && Value(spans[i].hi) == rs[i].hi
  {
    seq(|rs|, i requires 0 <= i < |rs| => Span(CpOf(rs[i].lo), CpOf(rs[i].hi)))
  }

  lemma SpannedMeans(rs: seq<Interval>)
    ensures Upward(rs) <==> Proper(Spanned(rs))
    ensures Tidy(rs) <==> Canon(Spanned(rs))
    ensures forall cp :: Has(rs, cp) <==> Covers(Spanned(rs), cp)
  {
    hide Value, CpOf;
    forall cp ensures Has(rs, cp) <==> Covers(Spanned(rs), cp) {
      if Has(rs, cp) {
        var i :| 0 <= i < |rs| && rs[i].lo <= cp <= rs[i].hi;
        assert Value(Spanned(rs)[i].lo) <= cp <= Value(Spanned(rs)[i].hi);
      }
    }
  }

  /** There is one tidy list for each set. */
  lemma TidyUnique(a: seq<Interval>, b: seq<Interval>)
    requires Tidy(a) && Tidy(b) && forall cp :: Has(a, cp) <==> Has(b, cp)
    ensures a == b
  {
    hide Value, CpOf;
    SpannedMeans(a);
    SpannedMeans(b);
    forall cp ensures Covers(Spanned(a), cp) <==> Covers(Spanned(b), cp) { assert Has(a, cp) <==> Has(b, cp); }
    CanonUnique(Spanned(a), Spanned(b));
    forall i | 0 <= i < |a| ensures a[i] == b[i] {
      assert Value(Spanned(a)[i].lo) == a[i].lo && Value(Spanned(b)[i].lo) == b[i].lo;
    }
  }

  // ---- sorting, as the library does it: stable, by lower ends

  function Insert(r: Interval, rs: seq<Interval>): (s: seq<Interval>)
  {
    if rs == [] || r.lo <= rs[0].lo then [r] + rs else [rs[0]] + Insert(r, rs[1..])
  }

  function SortByLow(rs: seq<Interval>): (s: seq<Interval>) {
    if rs == [] then [] else Insert(rs[0], SortByLow(rs[1..]))
  }

  lemma HasCons(r: Interval, rs: seq<Interval>, cp: int)
    ensures Has([r] + rs, cp) <==> r.lo <= cp <= r.hi || Has(rs, cp)
    ensures Upward([r] + rs) <==> r.lo <= r.hi && Upward(rs)
  {
    var all := [r] + rs;
    assert all[0] == r && all[1..] == rs;
    assert forall i :: 0 <= i < |rs| ==> all[i + 1] == rs[i];
  }

  lemma {:induction false} InsertExact(r: Interval, rs: seq<Interval>)
    requires Ascending(rs)
    ensures Ascending(Insert(r, rs)) && (Upward(Insert(r, rs)) <==> r.lo <= r.hi && Upward(rs))
    ensures forall cp :: Has(Insert(r, rs), cp) <==> r.lo <= cp <= r.hi || Has(rs, cp)
    ensures Insert(r, rs) != [] && (Insert(r, rs)[0] == r || (rs != [] && Insert(r, rs)[0] == rs[0]))
  {
    hide Has, Upward;
    if rs == [] || r.lo <= rs[0].lo {
      forall cp ensures Has([r] + rs, cp) <==> r.lo <= cp <= r.hi || Has(rs, cp) { HasCons(r, rs, cp); }
      HasCons(r, rs, 0);
    } else {
      InsertExact(r, rs[1..]);
      var tail := Insert(r, rs[1..]);
      assert rs == [rs[0]] + rs[1..];
      forall cp ensures Has([rs[0]] + tail, cp) <==> r.lo <= cp <= r.hi || Has(rs, cp) {
        HasCons(rs[0], tail, cp);
        HasCons(rs[0], rs[1..], cp);
      }
      HasCons(rs[0], tail, 0);
      HasCons(rs[0], rs[1..], 0);
      assert forall j :: 0 <= j < |tail| ==> tail[0].lo <= tail[j].lo;
    }
  }

  lemma {:induction false} SortExact(rs: seq<Interval>)
    ensures Ascending(SortByLow(rs)) && (Upward(SortByLow(rs)) <==> Upward(rs))
    ensures forall cp :: Has(SortByLow(rs), cp) <==> Has(rs, cp)
  {
    hide Has, Upward, Insert;
    if rs != [] {
      SortExact(rs[1..]);
      InsertExact(rs[0], SortByLow(rs[1..]));
      assert rs == [rs[0]] + rs[1..];
      forall cp ensures Has(rs, cp) <==> rs[0].lo <= cp <= rs[0].hi || Has(rs[1..], cp) { HasCons(rs[0], rs[1..], cp); }
      HasCons(rs[0], rs[1..], 0);
    }
  }

  // ---- merging

  /** One turn of the merge: the last range grows, or a new one is added. */
  function Absorb(out: seq<Interval>, r: Interval): (o: seq<Interval>) {
    if out != [] && r.lo <= out[|out| - 1].hi + 1 then
      var last := out[|out| - 1];
      out[|out| - 1 := Interval(last.lo, if last.hi < r.hi then r.hi else last.hi)]
    else out + [r]
  }

  lemma AbsorbExact(out: seq<Interval>, r: Interval)
    requires Tidy(out) && r.lo <= r.hi && (out != [] ==> out[|out| - 1].lo <= r.lo)
    ensures Tidy(Absorb(out, r)) && Absorb(out, r) != [] && Absorb(out, r)[|Absorb(out, r)| - 1].lo <= r.lo
    ensures forall cp :: Has(Absorb(out, r), cp) <==> Has(out, cp) || r.lo <= cp <= r.hi
  {
    hide Has;
    forall cp ensures Has(Absorb(out, r), cp) <==> Has(out, cp) || r.lo <= cp <= r.hi { AbsorbHas(out, r, cp); }
  }

  lemma AbsorbHas(out: seq<Interval>, r: Interval, cp: int)
    requires out != [] ==> out[|out| - 1].lo <= r.lo
    ensures Has(Absorb(out, r), cp) <==> Has(out, cp) || r.lo <= cp <= r.hi
  {
    var o := Absorb(out, r);
    var grows := out != [] && r.lo <= out[|out| - 1].hi + 1;
    if Has(out, cp) {
      var i :| 0 <= i < |out| && out[i].lo <= cp <= out[i].hi;
      assert o[i].lo <= cp <= o[i].hi;
    }
    if r.lo <= cp <= r.hi {
      var k := if grows then |out| - 1 else |out|;
      assert o[k].lo <= cp <= o[k].hi;
    }
    if Has(o, cp) {
      var i :| 0 <= i < |o| && o[i].lo <= cp <= o[i].hi;
      if i < |out| && !(r.lo <= cp <= r.hi) { assert out[i].lo <= cp <= out[i].hi; }
    }
  }

  /** Overlapping and touching ranges merged, and the rest sorted: the one tidy list for the set,
      the list the declarative library makes of it. */
  method NormalizeRanges(rs: seq<Interval>) returns (out: seq<Interval>)
    ensures Upward(rs) ==> Tidy(out) && forall cp :: Has(out, cp) <==> Has(rs, cp)
    ensures Upward(rs) ==> Spanned(out) == SpansMerged(Spanned(rs))
  {
    hide Has, Spanned, Canon, Proper, Value, Tidy;
    var sorted := SortByLow(rs);
    SortExact(rs);
    out := [];
    var i := 0;
    assert forall cp :: Has(sorted[..0], cp) <==> Has([], cp);
    assert Tidy([]) by { NoneTidy(); }
    while i < |sorted|
      invariant i <= |sorted|
      invariant Upward(rs) ==> Tidy(out) && forall cp :: Has(out, cp) <==> Has(sorted[..i], cp)
      invariant Upward(rs) && out != [] && i < |sorted| ==> out[|out| - 1].lo <= sorted[i].lo
    {
      var r := sorted[i];
      ghost var more := Absorb(out, r);
      if Upward(rs) { AbsorbNext(sorted, i, out); }
      if out != [] && r.lo <= out[|out| - 1].hi + 1 {
        var last := out[|out| - 1];
        out := out[|out| - 1 := Interval(last.lo, if last.hi < r.hi then r.hi else last.hi)];
      } else {
        out := out + [r];
      }
      assert out == more;
      i := i + 1;
    }
    assert sorted[..i] == sorted;
    if Upward(rs) { MergedByLoop(rs, out); }
  }

  lemma AbsorbNext(sorted: seq<Interval>, i: nat, out: seq<Interval>)
    requires Ascending(sorted) && Upward(sorted) && i < |sorted| && Tidy(out)
    requires forall cp :: Has(out, cp) <==> Has(sorted[..i], cp)
    requires out != [] ==> out[|out| - 1].lo <= sorted[i].lo
    ensures var more := Absorb(out, sorted[i]);
            Tidy(more) && more != [] && more[|more| - 1].lo <= sorted[i].lo &&
            forall cp :: Has(more, cp) <==> Has(sorted[..i + 1], cp)
  {
    hide Has, Absorb;
    var r := sorted[i];
    var more := Absorb(out, r);
    AbsorbExact(out, r);
    TakeMore(sorted, i);
    forall cp ensures Has(more, cp) <==> Has(sorted[..i + 1], cp) {
      assert Has(more, cp) <==> Has(out, cp) || r.lo <= cp <= r.hi;
      assert Has(out, cp) <==> Has(sorted[..i], cp);
    }
  }

  lemma NoneTidy()
    ensures Tidy([])
  {
  }

  lemma TakeMore(sorted: seq<Interval>, i: nat)
    requires i < |sorted|
    ensures forall cp :: Has(sorted[..i + 1], cp) <==> Has(sorted[..i], cp) || sorted[i].lo <= cp <= sorted[i].hi
  {
    var a, b := sorted[..i], sorted[..i + 1];
    forall cp ensures Has(b, cp) <==> Has(a, cp) || sorted[i].lo <= cp <= sorted[i].hi {
      if Has(b, cp) {
        var k :| 0 <= k < |b| && b[k].lo <= cp <= b[k].hi;
        if k < i { assert a[k] == b[k]; }
      }
      if Has(a, cp) {
        var k :| 0 <= k < |a| && a[k].lo <= cp <= a[k].hi;
        assert b[k] == a[k];
      }
      assert b[i] == sorted[i];
    }
  }

  lemma MergedByLoop(rs: seq<Interval>, out: seq<Interval>)
    requires Upward(rs) && Tidy(out) && forall cp :: Has(out, cp) <==> Has(rs, cp)
    ensures Spanned(out) == SpansMerged(Spanned(rs))
  {
    hide Value, Has, Canon, Proper, SpansMerged, Covers;
    SpannedMeans(rs);
    SpannedMeans(out);
    MergedExact(Spanned(rs));
    forall cp ensures Covers(Spanned(out), cp) <==> Covers(SpansMerged(Spanned(rs)), cp) {
      assert Has(out, cp) <==> Has(rs, cp);
    }
    CanonUnique(Spanned(out), SpansMerged(Spanned(rs)));
  }

  // ---- complement

  /** The gaps of a list from `next` on, up to the last code point. */
  function Gaps(rs: seq<Interval>, next: nat): (out: seq<Interval>) {
    if rs == [] then if next <= MAX_CP then [Interval(next, MAX_CP)] else []
    else (if next < rs[0].lo then [Interval(next, rs[0].lo - 1)] else []) + Gaps(rs[1..], rs[0].hi + 1)
  }

  function Complement(rs: seq<Interval>): (out: seq<Interval>) { Gaps(rs, 0) }

  lemma GapsStep(rs: seq<Interval>, i: nat, next: nat)
    requires i < |rs|
    ensures Gaps(rs[i..], next) ==
            (if next < rs[i].lo then [Interval(next, rs[i].lo - 1)] else []) + Gaps(rs[i + 1..], rs[i].hi + 1)
  {
    assert rs[i..][1..] == rs[i + 1..];
  }

  lemma GapsEnd(next: nat)
    ensures Gaps([], next) == if next <= MAX_CP then [Interval(next, MAX_CP)] else []
  {
  }

  method ComplementRanges(rs: seq<Interval>) returns (out: seq<Interval>)
    ensures out == Complement(rs)
  {
    hide Gaps;
    out := [];
    var next: nat := 0;
    var i := 0;
    assert rs[0..] == rs && [] + Gaps(rs, 0) == Gaps(rs, 0);
    while i < |rs|
      invariant i <= |rs|
      invariant out + Gaps(rs[i..], next) == Complement(rs)
    {
      GapsStep(rs, i, next);
      if next < rs[i].lo {
        Assoc(out, [Interval(next, rs[i].lo - 1)], Gaps(rs[i + 1..], rs[i].hi + 1));
        out := out + [Interval(next, rs[i].lo - 1)];
      }
      next := rs[i].hi + 1;
      i := i + 1;
    }
    assert rs[i..] == [];
    GapsEnd(next);
    if next <= MAX_CP { out := out + [Interval(next, MAX_CP)]; }
  }

  /** The gaps are the rest of the code points, as a tidy list. */
  lemma {:induction false} GapsExact(rs: seq<Interval>, next: nat)
    requires Tidy(rs) && InUnicode(rs) && next <= MAX_CP + 1
    requires rs != [] ==> next == 0 || next < rs[0].lo
    ensures Tidy(Gaps(rs, next)) && InUnicode(Gaps(rs, next))
    ensures forall i :: 0 <= i < |Gaps(rs, next)| ==> next <= Gaps(rs, next)[i].lo
    ensures forall cp :: next <= cp <= MAX_CP ==> (Has(Gaps(rs, next), cp) <==> !Has(rs, cp))
  {
    hide Has;
    if rs == [] {
      LastGap(next);
    } else {
      GapsExact(rs[1..], rs[0].hi + 1);
      var tail := Gaps(rs[1..], rs[0].hi + 1);
      AfterFirst(rs);
      AfterAll(tail, rs[0].hi + 1);
      GapBefore(rs, next, tail);
    }
  }

  lemma GapBefore(rs: seq<Interval>, next: nat, tail: seq<Interval>)
    requires rs != [] && tail == Gaps(rs[1..], rs[0].hi + 1) && rs[0].lo <= rs[0].hi
    requires forall cp :: Has(rs[1..], cp) ==> rs[0].hi + 1 < cp
    requires forall cp :: Has(tail, cp) ==> rs[0].hi + 1 <= cp
    requires forall cp :: rs[0].hi + 1 <= cp <= MAX_CP ==> (Has(tail, cp) <==> !Has(rs[1..], cp))
    ensures forall cp :: next <= cp <= MAX_CP ==> (Has(Gaps(rs, next), cp) <==> !Has(rs, cp))
  {
    hide Has;
    assert rs == [rs[0]] + rs[1..];
    forall cp | next <= cp <= MAX_CP ensures Has(Gaps(rs, next), cp) <==> !Has(rs, cp) {
      HasCons(rs[0], rs[1..], cp);
      if next < rs[0].lo { HasCons(Interval(next, rs[0].lo - 1), tail, cp); } else { assert [] + tail == tail; }
    }
  }

  lemma LastGap(next: nat)
    requires next <= MAX_CP + 1
    ensures Tidy(Gaps([], next)) && InUnicode(Gaps([], next))
    ensures forall cp :: next <= cp <= MAX_CP ==> Has(Gaps([], next), cp) && !Has([], cp)
  {
    if next <= MAX_CP { assert Gaps([], next)[0] == Interval(next, MAX_CP); }
  }

  lemma AfterFirst(rs: seq<Interval>)
    requires Tidy(rs) && rs != []
    ensures forall cp :: Has(rs[1..], cp) ==> rs[0].hi + 1 < cp
  {
    forall cp | Has(rs[1..], cp) ensures rs[0].hi + 1 < cp {
      var i :| 0 <= i < |rs[1..]| && rs[1..][i].lo <= cp <= rs[1..][i].hi;
      assert rs[i + 1] == rs[1..][i];
    }
  }

  lemma AfterAll(rs: seq<Interval>, next: nat)
    requires forall i :: 0 <= i < |rs| ==> next <= rs[i].lo
    ensures forall cp :: Has(rs, cp) ==> next <= cp
  {
  }

  /** The complement holds exactly the code points the list does not. */
  lemma ComplementExact(rs: seq<Interval>)
    requires Tidy(rs) && InUnicode(rs)
    ensures Tidy(Complement(rs)) && InUnicode(Complement(rs))
    ensures forall cp :: Has(Complement(rs), cp) <==> 0 <= cp <= MAX_CP && !Has(rs, cp)
  {
    hide Has;
    GapsExact(rs, 0);
    InsideUnicode(Complement(rs));
  }

  lemma InsideUnicode(rs: seq<Interval>)
    requires InUnicode(rs)
    ensures forall cp :: Has(rs, cp) ==> 0 <= cp <= MAX_CP
  {
  }

  /** Taking the complement twice gives the list back. */
  lemma ComplementTwice(rs: seq<Interval>)
    requires Tidy(rs) && InUnicode(rs)
    ensures Complement(Complement(rs)) == rs
  {
    hide Has, Complement;
    ComplementExact(rs);
    ComplementExact(Complement(rs));
    InsideUnicode(rs);
    forall cp ensures Has(Complement(Complement(rs)), cp) <==> Has(rs, cp) {
      assert Has(Complement(rs), cp) <==> 0 <= cp <= MAX_CP && !Has(rs, cp);
    }
    TidyUnique(Complement(Complement(rs)), rs);
  }

  /** A list and its complement tile the code points, by the declarative test. */
  lemma ComplementTiles(rs: seq<Interval>)
    requires Tidy(rs) && InUnicode(rs)
    ensures SpansTile(Spanned(rs), Spanned(Complement(rs)))
  {
    hide Has, Covers, Complement, SpansTile, Value;
    ComplementExact(rs);
    SpannedMeans(rs);
    SpannedMeans(Complement(rs));
    InsideUnicode(rs);
    TileExact(Spanned(rs), Spanned(Complement(rs)));
    forall cp ensures (Covers(Spanned(rs), cp) || Covers(Spanned(Complement(rs)), cp) <==> 0 <= cp <= MAX_CP)
                      && !(Covers(Spanned(rs), cp) && Covers(Spanned(Complement(rs)), cp))
    {
      assert Has(rs, cp) <==> Covers(Spanned(rs), cp);
      assert Has(Complement(rs), cp) <==> Covers(Spanned(Complement(rs)), cp);
    }
  }

  // ---- questions

  /** Two cursors: whether some code point is in both of two tidy lists. */
  method RangesIntersect(a: seq<Interval>, b: seq<Interval>) returns (r: bool)
    ensures Tidy(a) && Tidy(b) ==> (r <==> exists cp :: Has(a, cp) && Has(b, cp))
  {
    var i, j := 0, 0;
    while i < |a| && j < |b|
      invariant i <= |a| && j <= |b|
      invariant Tidy(a) && Tidy(b) ==> forall k, l :: 0 <= k < i && 0 <= l < |b| ==> a[k].hi < b[l].lo || b[l].hi < a[k].lo
      invariant Tidy(a) && Tidy(b) ==> forall k, l :: 0 <= k < |a| && 0 <= l < j ==> a[k].hi < b[l].lo || b[l].hi < a[k].lo
      decreases |a| - i + |b| - j
    {
      if a[i].hi < b[j].lo {
        i := i + 1;
      } else if b[j].hi < a[i].lo {
        j := j + 1;
      } else {
        var cp := if a[i].lo < b[j].lo then b[j].lo else a[i].lo;
        assert Tidy(a) && Tidy(b) ==> Has(a, cp) && Has(b, cp);
        return true;
      }
    }
    r := false;
  }

  /** Whether a tidy list holds `cp`. */
  method RangesContain(rs: seq<Interval>, cp: int) returns (r: bool)
    ensures Tidy(rs) ==> (r <==> Has(rs, cp))
  {
    var i := 0;
    while i < |rs|
      invariant i <= |rs|
      invariant forall k :: 0 <= k < i ==> rs[k].hi < cp
    {
      if cp < rs[i].lo { return false; }
      if cp <= rs[i].hi { return true; }
      i := i + 1;
    }
    r := false;
  }
}
