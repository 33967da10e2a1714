/** Sets of code points as lists of ranges, declaratively: code points held as three bytes,
    ranges sorted by rank, merged by blocks, and compared. */
module Spans {
  import opened Text

  // ---- code points as three bytes

  datatype Bytes = Bytes(high: nat, mid: nat, low: nat)

  /** The top byte may run one past the last plane, for the successor of the last code point. */
  type Cp = c: Bytes | c.mid < 256 && c.low < 256 witness Bytes(0, 0, 0)

  function Value(c: Cp): (n: nat) { c.high * 0x10000 + c.mid * 0x100 + c.low }

  function Pad(hex: string): (s: string)
    requires 1 <= |hex| <= 6
    ensures |s| == 6
  {
    FixedHex(0, 6 - |hex|, true) + hex
  }

  /** A code point from one to six hexadecimal digits: its bytes, a pair of digits each. */
  function FromHex(hex: string): (c: Cp)
    requires 1 <= |hex| <= 6 && AllHex(hex)
  {
    var s := Pad(hex);
    assert AllHex(s);
    PairBound(s[..2]); PairBound(s[2..4]); PairBound(s[4..]);
    Bytes(ParseHex(s[..2]), ParseHex(s[2..4]), ParseHex(s[4..]))
  }

  lemma PairBound(p: string)
    requires |p| == 2 && AllHex(p)
    ensures ParseHex(p) < 256
  {
    assert p[..1][..0] == "";
    assert ParseHex(p[..1]) == HexVal(p[0]);
  }

  lemma {:induction false} ParseHexConcat(a: string, b: string)
    requires AllHex(a) && AllHex(b)
    ensures AllHex(a + b) && ParseHex(a + b) == ParseHex(a) * Pow(16, |b|) + ParseHex(b)
    decreases |b|
  {
    var all := a + b;
    if b == "" {
      assert all == a;
    } else {
      var front := b[..|b| - 1];
      assert all[..|all| - 1] == a + front;
      ParseHexConcat(a, front);
      assert all[|all| - 1] == b[|b| - 1];
      Times(ParseHex(a), Pow(16, |front|), ParseHex(front));
    }
  }

  lemma Times(a: nat, p: nat, f: nat)
    ensures (a * p + f) * 16 == a * (16 * p) + f * 16
  {
  }

  lemma {:induction false} ZerosAreNothing(w: nat)
    ensures ParseHex(FixedHex(0, w, true)) == 0
  {
    if w != 0 {
      ZerosAreNothing(w - 1);
      var s := FixedHex(0, w, true);
      assert s[..|s| - 1] == FixedHex(0, w - 1, true);
    }
  }

  /** The three bytes are those of the number the digits name. */
  lemma FromHexValue(hex: string)
    requires 1 <= |hex| <= 6 && AllHex(hex)
    ensures Value(FromHex(hex)) == ParseHex(hex)
  {
    hide ParseHex, FixedHex, Pad, AllHex;
    PadReads(hex);
    SixDigits(Pad(hex));
  }

  lemma PadReads(hex: string)
    requires 1 <= |hex| <= 6 && AllHex(hex)
    ensures AllHex(Pad(hex)) && ParseHex(Pad(hex)) == ParseHex(hex)
  {
    hide ParseHex, FixedHex, Pow;
    var zeros := FixedHex(0, 6 - |hex|, true);
    ZerosAreNothing(6 - |hex|);
    ParseHexConcat(zeros, hex);
    assert 0 * Pow(16, |hex|) == 0;
  }

  lemma SixDigits(s: string)
    requires |s| == 6 && AllHex(s)
    ensures ParseHex(s) == ParseHex(s[..2]) * 0x10000 + ParseHex(s[2..4]) * 0x100 + ParseHex(s[4..])
  {
    hide ParseHex, Pow;
    var a, b, c := s[..2], s[2..4], s[4..];
    assert s == a + (b + c);
    ParseHexConcat(b, c);
    ParseHexConcat(a, b + c);
    HexPowers();
  }

  datatype Ordering = Less | Equal | Greater

  function Compare(a: nat, b: nat): (o: Ordering) { if a < b then Less else if a == b then Equal else Greater }

  /** Bytes compared from the highest down order the code points. */
  function CpOrder(a: Cp, b: Cp): (o: Ordering)
    ensures o == Compare(Value(a), Value(b))
  {
    if Compare(a.high, b.high) != Equal then Compare(a.high, b.high)
    else if Compare(a.mid, b.mid) != Equal then Compare(a.mid, b.mid)
    else Compare(a.low, b.low)
  }

  predicate CpBefore(a: Cp, b: Cp) { CpOrder(a, b) == Less }

  predicate CpIs(a: Cp, b: Cp) { CpOrder(a, b) == Equal }

  /** Equal bytes, equal code points. */
  lemma CpIsSame(a: Cp, b: Cp)
    ensures CpIs(a, b) <==> a == b
  {
  }

  /** The next code point: its low byte one more, carried into the bytes above. */
  function CpNext(c: Cp): (n: Cp)
    ensures Value(n) == Value(c) + 1
  {
    if c.low != 255 then Bytes(c.high, c.mid, c.low + 1)
    else if c.mid != 255 then Bytes(c.high, c.mid + 1, 0)
    else Bytes(c.high + 1, 0, 0)
  }

  // ---- indices picked from a list

  /** The indices below `n` that satisfy `p`, ascending. */
  function Pick(n: nat, p: nat -> bool): (ix: seq<nat>)
    ensures |ix| <= n
    ensures forall i: nat :: i in ix <==> i < n && p(i)
    ensures forall k, l :: 0 <= k < l < |ix| ==> ix[k] < ix[l] < n
  {
    if n == 0 then []
    else
      var front := Pick(n - 1, p);
      assert forall k :: 0 <= k < |front| ==> front[k] in front;
      front + if p(n - 1) then [n - 1] else []
  }

  lemma {:induction false} PickMore(n: nat, p: nat -> bool, q: nat -> bool)
    requires forall i: nat :: i < n && p(i) ==> q(i)
    ensures |Pick(n, p)| <= |Pick(n, q)|
    ensures (exists i: nat :: i < n && q(i) && !p(i)) ==> |Pick(n, p)| < |Pick(n, q)|
  {
    if n != 0 { PickMore(n - 1, p, q); }
  }

  lemma PickNone(n: nat, p: nat -> bool)
    ensures Pick(n, p) == [] <==> forall i: nat :: i < n ==> !p(i)
  {
    var ix := Pick(n, p);
    if ix != [] { assert ix[0] in ix; }
  }

  // ---- a rank is a place

  lemma {:induction false} ImageSize(n: nat, f: nat -> nat)
    requires forall i, j :: 0 <= i < j < n ==> f(i) != f(j)
    ensures |(set i | 0 <= i < n :: f(i))| == n
  {
    var s := set i | 0 <= i < n :: f(i);
    if n != 0 {
      ImageSize(n - 1, f);
      var t := set i | 0 <= i < n - 1 :: f(i);
      assert f(n - 1) !in t;
      assert s == t + {f(n - 1)};
    }
  }

  lemma {:induction false} SubsetFills(s: set<nat>, n: nat)
    requires (forall x :: x in s ==> x < n) && |s| == n
    ensures forall k: nat :: k < n ==> k in s
  {
    if n != 0 {
      if n - 1 in s {
        SubsetFills(s - {n - 1}, n - 1);
      } else {
        BelowSize(s, n - 1);
      }
    }
  }

  lemma {:induction false} BelowSize(s: set<nat>, n: nat)
    requires forall x :: x in s ==> x < n
    ensures |s| <= n
  {
    if n == 0 { assert s == {}; } else { BelowSize(s - {n - 1}, n - 1); }
  }

  /** Distinct numbers below `n`, `n` of them, are all of them. */
  lemma Onto(n: nat, f: nat -> nat, k: nat)
    requires forall i, j :: 0 <= i < j < n ==> f(i) != f(j)
    requires forall i :: 0 <= i < n ==> f(i) < n
    requires k < n
    ensures exists i :: 0 <= i < n && f(i) == k
  {
    var s := set i | 0 <= i < n :: f(i);
    ImageSize(n, f);
    SubsetFills(s, n);
    assert k in s;
  }

  // ---- sorting

  datatype Span = Span(lo: Cp, hi: Cp)

  predicate Covers(spans: seq<Span>, cp: int) {
    exists i :: 0 <= i < |spans| && Value(spans[i].lo) <= cp <= Value(spans[i].hi)
  }

  /** Every range runs upward. */
  predicate Proper(spans: seq<Span>) { forall i :: 0 <= i < |spans| ==> Value(spans[i].lo) <= Value(spans[i].hi) }

  predicate Sorted(spans: seq<Span>) {
    forall i, j :: 0 <= i < j < |spans| ==> Value(spans[i].lo) <= Value(spans[j].lo)
  }

  /** Sorted, disjoint, and not touching. */
  predicate Canon(spans: seq<Span>) {
    Proper(spans) && forall i, j :: 0 <= i < j < |spans| ==> Value(spans[i].hi) + 1 < Value(spans[j].lo)
  }

  /** `j` stands before `i` once sorted: a lower end, or the same one earlier in the list. */
  predicate Precedes(spans: seq<Span>, j: nat, i: nat)
    requires i < |spans|
  {
    j < |spans| && match CpOrder(spans[j].lo, spans[i].lo)
    case Less => true
    case Equal => j < i
    case Greater => false
  }

  function Rank(spans: seq<Span>, i: nat): (r: nat) {
    if i < |spans| then |Pick(|spans|, (j: nat) => Precedes(spans, j, i))| else i
  }

  lemma RankOrders(spans: seq<Span>, j: nat, i: nat)
    requires i < |spans| && Precedes(spans, j, i)
    ensures Rank(spans, j) < Rank(spans, i)
  {
    hide CpOrder;
    var p, q := (k: nat) => Precedes(spans, k, j), (k: nat) => Precedes(spans, k, i);
    assert q(j) && !p(j);
    PickMore(|spans|, p, q);
  }

  lemma RankBelow(spans: seq<Span>, i: nat)
    requires i < |spans|
    ensures Rank(spans, i) < |spans|
  {
    hide CpOrder;
    var p := (k: nat) => Precedes(spans, k, i);
    assert !p(i);
    PickMore(|spans|, p, (k: nat) => true);
  }

  lemma RanksDiffer(spans: seq<Span>, i: nat, j: nat)
    requires i < j < |spans|
    ensures Rank(spans, i) != Rank(spans, j)
  {
    hide Rank;
    if Precedes(spans, i, j) { RankOrders(spans, i, j); } else { RankOrders(spans, j, i); }
  }

  lemma RankHits(spans: seq<Span>, k: nat)
    requires k < |spans|
    ensures Pick(|spans|, (i: nat) => Rank(spans, i) == k) != []
  {
    hide Rank, Pick;
    var f := (i: nat) => Rank(spans, i);
    forall i, j | 0 <= i < j < |spans| ensures f(i) != f(j) { RanksDiffer(spans, i, j); }
    forall i | 0 <= i < |spans| ensures f(i) < |spans| { RankBelow(spans, i); }
    Onto(|spans|, f, k);
    var i :| 0 <= i < |spans| && f(i) == k;
    assert i in Pick(|spans|, (i: nat) => Rank(spans, i) == k);
  }

  /** The index that takes place `k`. */
  function Placed(spans: seq<Span>, k: nat): (i: nat)
    requires k < |spans|
    ensures i < |spans| && Rank(spans, i) == k
  {
    RankHits(spans, k);
    var hits := Pick(|spans|, (i: nat) => Rank(spans, i) == k);
    assert hits[0] in hits;
    hits[0]
  }

  function SpansSorted(spans: seq<Span>): (r: seq<Span>)
    ensures |r| == |spans|
  {
    seq(|spans|, k requires 0 <= k < |spans| => spans[Placed(spans, k)])
  }

  /** Sorting orders the ranges and keeps each of them. */
  lemma SortedExact(spans: seq<Span>)
    ensures Sorted(SpansSorted(spans))
    ensures forall i :: 0 <= i < |spans| ==> Rank(spans, i) < |spans| && SpansSorted(spans)[Rank(spans, i)] == spans[i]
    ensures forall k :: 0 <= k < |spans| ==> SpansSorted(spans)[k] == spans[Placed(spans, k)]
  {
    hide Rank, Placed, CpOrder, Value;
    forall k, l | 0 <= k < l < |spans|
      ensures Value(SpansSorted(spans)[k].lo) <= Value(SpansSorted(spans)[l].lo)
    {
      var i, j := Placed(spans, k), Placed(spans, l);
      if Precedes(spans, j, i) { RankOrders(spans, j, i); }
    }
    forall i | 0 <= i < |spans| ensures Rank(spans, i) < |spans| && SpansSorted(spans)[Rank(spans, i)] == spans[i] {
      RankBelow(spans, i);
      var j := Placed(spans, Rank(spans, i));
      if i < j { RanksDiffer(spans, i, j); } else if j < i { RanksDiffer(spans, j, i); }
    }
  }

  lemma SortedCovers(spans: seq<Span>, cp: int)
    ensures Covers(SpansSorted(spans), cp) <==> Covers(spans, cp)
    ensures Proper(SpansSorted(spans)) <==> Proper(spans)
  {
    hide Rank, Placed, Value;
    SortedExact(spans);
    var r := SpansSorted(spans);
    forall i | 0 <= i < |spans| ensures r[Rank(spans, i)] == spans[i] { }
  }

  // ---- merging

  /** The indices of the code points that none exceeds. */
  function Tops(cps: seq<Cp>): (ix: seq<nat>) {
    Pick(|cps|, (i: nat) => i < |cps| && Pick(|cps|, (j: nat) => j < |cps| && CpBefore(cps[i], cps[j])) == [])
  }

  lemma {:induction false} TopExists(cps: seq<Cp>, n: nat) returns (t: nat)
    requires 0 < n <= |cps|
    ensures t < n && forall j :: 0 <= j < n ==> Value(cps[j]) <= Value(cps[t])
  {
    if n == 1 {
      t := 0;
    } else {
      t := TopExists(cps, n - 1);
      if Value(cps[t]) < Value(cps[n - 1]) { t := n - 1; }
    }
  }

  lemma TopsFound(cps: seq<Cp>)
    requires cps != []
    ensures Tops(cps) != [] && Tops(cps)[0] < |cps|
    ensures forall j :: 0 <= j < |cps| ==> Value(cps[j]) <= Value(cps[Tops(cps)[0]])
  {
    hide Value, Pick;
    var t := TopExists(cps, |cps|);
    TopAbove(cps, t);
    assert t in Tops(cps);
    assert Tops(cps)[0] in Tops(cps);
    TopIsTop(cps, Tops(cps)[0]);
  }

  lemma TopIsTop(cps: seq<Cp>, top: nat)
    requires top < |cps| && Pick(|cps|, (j: nat) => j < |cps| && CpBefore(cps[top], cps[j])) == []
    ensures forall j :: 0 <= j < |cps| ==> Value(cps[j]) <= Value(cps[top])
  {
    hide Value, Pick;
    var above := Pick(|cps|, (j: nat) => j < |cps| && CpBefore(cps[top], cps[j]));
    forall j: nat | j < |cps| ensures Value(cps[j]) <= Value(cps[top]) { assert j !in above; }
  }

  lemma TopAbove(cps: seq<Cp>, t: nat)
    requires t < |cps| && forall j :: 0 <= j < |cps| ==> Value(cps[j]) <= Value(cps[t])
    ensures Pick(|cps|, (j: nat) => j < |cps| && CpBefore(cps[t], cps[j])) == []
  {
    hide Value;
    var above := Pick(|cps|, (j: nat) => j < |cps| && CpBefore(cps[t], cps[j]));
    if above != [] { assert above[0] in above; }
  }

  /** The greatest of a list of code points. */
  function CpMax(cps: seq<Cp>): (c: Cp)
    requires cps != []
    ensures c in cps && forall j :: 0 <= j < |cps| ==> Value(cps[j]) <= Value(c)
  {
    TopsFound(cps);
    cps[Tops(cps)[0]]
  }

  /** No earlier range reaches the one at `i`, or meets it. */
  predicate Starts(sorted: seq<Span>, i: nat)
    requires i < |sorted|
  {
    Pick(|sorted|, (j: nat) => j < i && !CpBefore(CpNext(sorted[j].hi), sorted[i].lo)) == []
  }

  lemma StartsMeans(sorted: seq<Span>, i: nat)
    requires i < |sorted|
    ensures Starts(sorted, i) <==> forall j :: 0 <= j < i ==> Value(sorted[j].hi) + 1 < Value(sorted[i].lo)
  {
    hide Value, Pick, CpOrder, CpNext;
    var p := (j: nat) => j < i && !CpBefore(CpNext(sorted[j].hi), sorted[i].lo);
    PickNone(|sorted|, p);
    forall j: nat | j < i ensures p(j) <==> Value(sorted[j].hi) + 1 >= Value(sorted[i].lo) { }
  }

  function BlockStarts(sorted: seq<Span>): (ix: seq<nat>)
    ensures forall k :: 0 <= k < |ix| ==> ix[k] < |sorted|
  {
    var ix := Pick(|sorted|, (i: nat) => i < |sorted| && Starts(sorted, i));
    assert forall k :: 0 <= k < |ix| ==> ix[k] in ix;
    ix
  }

  function Members(sorted: seq<Span>, starts: seq<nat>, k: nat): (ix: seq<nat>)
    requires k < |starts|
  {
    Pick(|sorted|, (i: nat) => starts[k] <= i && (k + 1 < |starts| ==> i < starts[k + 1]))
  }

  function Highs(sorted: seq<Span>, ix: seq<nat>): (cps: seq<Cp>)
    requires forall i :: i in ix ==> i < |sorted|
    ensures |cps| == |ix|
  {
    seq<Cp>(|ix|, m requires 0 <= m < |ix| => assert ix[m] in ix; sorted[ix[m]].hi)
  }

  lemma StartIsMember(sorted: seq<Span>, starts: seq<nat>, k: nat)
    requires starts == BlockStarts(sorted) && k < |starts|
    ensures starts[k] in Members(sorted, starts, k)
  {
    hide Starts;
  }

  function BlockSpan(sorted: seq<Span>, starts: seq<nat>, k: nat): (s: Span)
    requires starts == BlockStarts(sorted) && k < |starts|
  {
    StartIsMember(sorted, starts, k);
    Span(sorted[starts[k]].lo, CpMax(Highs(sorted, Members(sorted, starts, k))))
  }

  function SpansMerged(spans: seq<Span>): (r: seq<Span>) {
    var sorted := SpansSorted(spans);
    var starts := BlockStarts(sorted);
    seq(|starts|, k requires 0 <= k < |starts| => BlockSpan(sorted, starts, k))
  }

  /** A block's upper end is one of its members' and above them all. */
  lemma BlockHigh(sorted: seq<Span>, starts: seq<nat>, k: nat) returns (m: nat)
    requires starts == BlockStarts(sorted) && k < |starts|
    ensures m in Members(sorted, starts, k) && m < |sorted| && sorted[m].hi == BlockSpan(sorted, starts, k).hi
    ensures forall i: nat :: i in Members(sorted, starts, k) ==>
              i < |sorted| && Value(sorted[i].hi) <= Value(BlockSpan(sorted, starts, k).hi)
  {
    hide Value, Starts, CpMax, Pick;
    StartIsMember(sorted, starts, k);
    var ix := Members(sorted, starts, k);
    var highs := Highs(sorted, ix);
    var c := CpMax(highs);
    var n :| 0 <= n < |highs| && highs[n] == c;
    m := ix[n];
    forall i: nat | i in ix ensures i < |sorted| && Value(sorted[i].hi) <= Value(c) {
      var l :| 0 <= l < |ix| && ix[l] == i;
      assert highs[l] == sorted[i].hi;
    }
  }

  /** Within a block nothing is missed between its lower end and any member's upper end. */
  lemma {:induction false} Filled(sorted: seq<Span>, from: nat, upto: nat, cp: int)
    requires Sorted(sorted) && from <= upto < |sorted| && Starts(sorted, from)
    requires forall i: nat :: from < i <= upto ==> !Starts(sorted, i)
    requires Value(sorted[from].lo) <= cp <= Value(sorted[upto].hi)
    ensures Covers(sorted, cp)
    decreases upto
  {
    hide Value, Starts;
    if Value(sorted[upto].lo) > cp {
      StartsMeans(sorted, upto);
      StartsMeans(sorted, from);
      var j :| 0 <= j < upto && Value(sorted[j].hi) + 1 >= Value(sorted[upto].lo);
      assert from <= j;
      Filled(sorted, from, j, cp);
    }
  }

  lemma {:induction false} BlockOf(starts: seq<nat>, i: nat, n: nat) returns (k: nat)
    requires 0 < n <= |starts| && starts[0] <= i && (n < |starts| ==> i < starts[n])
    requires forall k, l :: 0 <= k < l < |starts| ==> starts[k] < starts[l]
    ensures k < |starts| && starts[k] <= i && (k + 1 < |starts| ==> i < starts[k + 1])
    decreases n
  {
    if starts[n - 1] <= i { k := n - 1; } else { k := BlockOf(starts, i, n - 1); }
  }

  lemma FirstStarts(sorted: seq<Span>)
    requires sorted != []
    ensures BlockStarts(sorted) != [] && BlockStarts(sorted)[0] == 0
  {
    hide Starts;
    StartsMeans(sorted, 0);
    var ix := BlockStarts(sorted);
    assert 0 in ix;
  }

  lemma BlocksApart(sorted: seq<Span>, k: nat, l: nat)
    requires k < l < |BlockStarts(sorted)|
    ensures var starts := BlockStarts(sorted);
            Value(BlockSpan(sorted, starts, k).hi) + 1 < Value(BlockSpan(sorted, starts, l).lo)
  {
    var starts := BlockStarts(sorted);
    BlockLow(sorted, l);
    BlocksAscend(sorted, k, l);
    hide Value, Starts, BlockSpan, BlockStarts, CpMax;
    var m := BlockHigh(sorted, starts, k);
    assert m < starts[k + 1];
    StartsMeans(sorted, starts[l]);
  }

  lemma BlockLow(sorted: seq<Span>, l: nat)
    requires l < |BlockStarts(sorted)|
    ensures var starts := BlockStarts(sorted);
            Starts(sorted, starts[l]) && BlockSpan(sorted, starts, l).lo == sorted[starts[l]].lo
  {
    hide Value, Starts, CpMax;
    assert BlockStarts(sorted)[l] in BlockStarts(sorted);
  }

  lemma BlocksAscend(sorted: seq<Span>, k: nat, l: nat)
    requires k < l < |BlockStarts(sorted)|
    ensures BlockStarts(sorted)[k + 1] <= BlockStarts(sorted)[l]
  {
    hide Starts;
  }

  lemma BetweenStarts(sorted: seq<Span>, k: nat, i: nat)
    requires var starts := BlockStarts(sorted);
             k < |starts| && starts[k] < i < |sorted| && (k + 1 < |starts| ==> i < starts[k + 1])
    ensures !Starts(sorted, i)
  {
    hide Starts;
    var starts := BlockStarts(sorted);
    forall l | 0 <= l < |starts| ensures starts[l] != i {
      if l < k { assert starts[l] < starts[k]; } else if l > k + 1 { assert starts[k + 1] < starts[l]; }
    }
    assert i !in starts;
  }

  lemma BlockCovers(sorted: seq<Span>, k: nat, cp: int)
    requires Sorted(sorted) && k < |BlockStarts(sorted)|
    requires var b := BlockSpan(sorted, BlockStarts(sorted), k); Value(b.lo) <= cp <= Value(b.hi)
    ensures Covers(sorted, cp)
  {
    hide Value, Starts;
    var starts := BlockStarts(sorted);
    var m := BlockHigh(sorted, starts, k);
    assert starts[k] in starts;
    forall i: nat | starts[k] < i <= m ensures !Starts(sorted, i) { BetweenStarts(sorted, k, i); }
    Filled(sorted, starts[k], m, cp);
  }

  lemma CoveredByBlock(sorted: seq<Span>, i: nat, cp: int) returns (k: nat)
    requires Sorted(sorted) && i < |sorted| && Value(sorted[i].lo) <= cp <= Value(sorted[i].hi)
    ensures k < |BlockStarts(sorted)|
    ensures var b := BlockSpan(sorted, BlockStarts(sorted), k); Value(b.lo) <= cp <= Value(b.hi)
  {
    var starts := BlockStarts(sorted);
    FirstStarts(sorted);
    hide Value, Starts, BlockSpan, CpMax, BlockStarts;
    k := BlockOf(starts, i, |starts|);
    BlockReaches(sorted, k, i);
    BlockLow(sorted, k);
  }

  lemma BlockReaches(sorted: seq<Span>, k: nat, i: nat)
    requires var starts := BlockStarts(sorted);
             i < |sorted| && k < |starts| && starts[k] <= i && (k + 1 < |starts| ==> i < starts[k + 1])
    ensures Value(sorted[i].hi) <= Value(BlockSpan(sorted, BlockStarts(sorted), k).hi)
  {
    hide Value, Starts, BlockSpan, CpMax, BlockStarts;
    var starts := BlockStarts(sorted);
    var m := BlockHigh(sorted, starts, k);
    assert i in Members(sorted, starts, k);
  }

  /** The merged list is canonical, and holds the same code points. */
  lemma MergedExact(spans: seq<Span>)
    requires Proper(spans)
    ensures Canon(SpansMerged(spans))
    ensures forall cp :: Covers(SpansMerged(spans), cp) <==> Covers(spans, cp)
  {
    hide Value, Starts, BlockSpan, BlockStarts, SpansSorted;
    var sorted := SpansSorted(spans);
    var starts := BlockStarts(sorted);
    var r := SpansMerged(spans);
    SortedExact(spans);
    SortedCovers(spans, 0);
    forall k | 0 <= k < |r| ensures Value(r[k].lo) <= Value(r[k].hi) { BlockProper(sorted, k); }
    forall k, l | 0 <= k < l < |r| ensures Value(r[k].hi) + 1 < Value(r[l].lo) { BlocksApart(sorted, k, l); }
    forall cp ensures Covers(r, cp) <==> Covers(spans, cp) { MergedCovers(spans, cp); }
  }

  lemma MergedCovers(spans: seq<Span>, cp: int)
    requires Sorted(SpansSorted(spans))
    ensures Covers(SpansMerged(spans), cp) <==> Covers(spans, cp)
  {
    hide Value, Starts, BlockSpan, BlockStarts, SpansSorted;
    var sorted, r := SpansSorted(spans), SpansMerged(spans);
    SortedCovers(spans, cp);
    if Covers(r, cp) {
      var k :| 0 <= k < |r| && Value(r[k].lo) <= cp <= Value(r[k].hi);
      BlockCovers(sorted, k, cp);
    }
    if Covers(sorted, cp) {
      var i :| 0 <= i < |sorted| && Value(sorted[i].lo) <= cp <= Value(sorted[i].hi);
      var k := CoveredByBlock(sorted, i, cp);
      assert Value(r[k].lo) <= cp <= Value(r[k].hi);
    }
  }

  lemma BlockProper(sorted: seq<Span>, k: nat)
    requires Proper(sorted) && k < |BlockStarts(sorted)|
    ensures var b := BlockSpan(sorted, BlockStarts(sorted), k); Value(b.lo) <= Value(b.hi)
  {
    hide Value, Starts;
    var starts := BlockStarts(sorted);
    StartIsMember(sorted, starts, k);
    var m := BlockHigh(sorted, starts, k);
  }

  // ---- one canonical list for each set

  lemma {:induction false} CanonUnique(a: seq<Span>, b: seq<Span>)
    requires Canon(a) && Canon(b) && forall cp :: Covers(a, cp) <==> Covers(b, cp)
    ensures a == b
  {
    hide Value;
    if a != [] { FirstCovered(a); }
    if b != [] { FirstCovered(b); }
    assert a == [] <==> b == [];
    if a != [] {
      FirstSame(a, b);
      FirstSame(b, a);
      ValueSame(a[0].lo, b[0].lo);
      ValueSame(a[0].hi, b[0].hi);
      forall cp ensures Covers(a[1..], cp) <==> Covers(b[1..], cp) {
        RestCovers(a, cp);
        RestCovers(b, cp);
      }
      CanonUnique(a[1..], b[1..]);
      assert a == [a[0]] + a[1..] && b == [b[0]] + b[1..];
    }
  }

  lemma FirstCovered(a: seq<Span>)
    requires Canon(a) && a != []
    ensures Covers(a, Value(a[0].lo))
  {
    hide Value;
  }

  lemma ValueSame(c: Cp, d: Cp)
    ensures Value(c) == Value(d) <==> c == d
  {
    hide Value;
    CpIsSame(c, d);
  }

  lemma RestCovers(a: seq<Span>, cp: int)
    requires Canon(a) && a != []
    ensures Canon(a[1..]) && (Covers(a[1..], cp) <==> Covers(a, cp) && Value(a[0].hi) < cp)
  {
    hide Value;
    if Covers(a, cp) && Value(a[0].hi) < cp {
      var i :| 0 <= i < |a| && Value(a[i].lo) <= cp <= Value(a[i].hi);
      assert a[1..][i - 1] == a[i];
    }
    if Covers(a[1..], cp) {
      var i :| 0 <= i < |a[1..]| && Value(a[1..][i].lo) <= cp <= Value(a[1..][i].hi);
      assert a[i + 1] == a[1..][i];
    }
  }

  /** The first range starts no later, and, starting together, ends no sooner. */
  lemma FirstSame(a: seq<Span>, b: seq<Span>)
    requires Canon(a) && Canon(b) && a != [] && b != [] && forall cp :: Covers(a, cp) <==> Covers(b, cp)
    ensures Value(a[0].lo) <= Value(b[0].lo)
    ensures Value(a[0].lo) == Value(b[0].lo) ==> Value(b[0].hi) <= Value(a[0].hi)
  {
    hide Value;
    assert Covers(b, Value(b[0].lo));
    var i :| 0 <= i < |a| && Value(a[i].lo) <= Value(b[0].lo) <= Value(a[i].hi);
    if i > 0 { assert Value(a[0].hi) + 1 < Value(a[i].lo); }
    var next := Value(a[0].hi) + 1;
    assert !Covers(a, next);
    assert Value(b[0].lo) <= next <= Value(b[0].hi) ==> Covers(b, next);
  }

  // ---- comparing sets

  predicate SpansSame(a: seq<Span>, b: seq<Span>) {
    |a| == |b| &&
    Pick(|a|, (i: nat) => i < |a| && i < |b| && !(CpIs(a[i].lo, b[i].lo) && CpIs(a[i].hi, b[i].hi))) == []
  }

  /** Merged lists are the same exactly when the lists hold the same code points. */
  lemma SameExact(a: seq<Span>, b: seq<Span>)
    requires Proper(a) && Proper(b)
    ensures SpansSame(SpansMerged(a), SpansMerged(b)) <==> forall cp :: Covers(a, cp) <==> Covers(b, cp)
  {
    hide SpansMerged, Value, CpOrder;
    var x, y := SpansMerged(a), SpansMerged(b);
    MergedExact(a);
    MergedExact(b);
    SameLists(x, y);
    if forall cp :: Covers(a, cp) <==> Covers(b, cp) {
      forall cp ensures Covers(x, cp) <==> Covers(y, cp) { assert Covers(a, cp) <==> Covers(b, cp); }
      CanonUnique(x, y);
    }
    if x == y {
      forall cp ensures Covers(a, cp) <==> Covers(b, cp) { assert Covers(x, cp) <==> Covers(y, cp); }
    }
  }

  lemma SameLists(x: seq<Span>, y: seq<Span>)
    ensures SpansSame(x, y) <==> x == y
  {
    hide CpOrder, Pick;
    if |x| == |y| {
      var p := (i: nat) => i < |x| && i < |y| && !(CpIs(x[i].lo, y[i].lo) && CpIs(x[i].hi, y[i].hi));
      PickNone(|x|, p);
      forall i: nat | i < |x| ensures p(i) <==> x[i] != y[i] {
        CpIsSame(x[i].lo, y[i].lo);
        CpIsSame(x[i].hi, y[i].hi);
      }
    }
  }

  const FIRST: Cp := Bytes(0, 0, 0)

  const LAST: Cp := Bytes(0x10, 0xFF, 0xFF)

  predicate Adjacent(all: seq<Span>) {
    Pick(|all|, (i: nat) => i + 1 < |all| && !CpIs(all[i + 1].lo, CpNext(all[i].hi))) == []
  }

  /** Whether the two lists hold every code point between them, each once. */
  predicate SpansTile(a: seq<Span>, b: seq<Span>) {
    var all := SpansSorted(SpansMerged(a) + SpansMerged(b));
    all != [] && CpIs(all[0].lo, FIRST) && CpIs(all[|all| - 1].hi, LAST) && Adjacent(all)
  }

  lemma AdjacentMeans(all: seq<Span>)
    ensures Adjacent(all) <==> forall i :: 0 <= i && i + 1 < |all| ==> Value(all[i + 1].lo) == Value(all[i].hi) + 1
  {
    hide Value, Pick, CpOrder, CpNext;
    var p := (i: nat) => i + 1 < |all| && !CpIs(all[i + 1].lo, CpNext(all[i].hi));
    PickNone(|all|, p);
    forall i: nat | i + 1 < |all| ensures p(i) <==> Value(all[i + 1].lo) != Value(all[i].hi) + 1 { }
  }

  predicate Apart(all: seq<Span>) { forall i, j :: 0 <= i < j < |all| ==> Value(all[i].hi) < Value(all[j].lo) }

  lemma {:induction false} AdjacentApart(all: seq<Span>, i: nat, j: nat)
    requires Proper(all) && i < j < |all|
    requires forall i :: 0 <= i && i + 1 < |all| ==> Value(all[i + 1].lo) == Value(all[i].hi) + 1
    ensures Value(all[i].hi) < Value(all[j].lo)
  {
    hide Value;
    if i + 1 < j { AdjacentApart(all, i, j - 1); }
    assert Value(all[(j - 1) + 1].lo) == Value(all[j - 1].hi) + 1;
  }

  lemma {:induction false} AdjacentCovers(all: seq<Span>, n: nat, cp: int)
    requires Proper(all) && 0 < n <= |all|
    requires forall i :: 0 <= i && i + 1 < |all| ==> Value(all[i + 1].lo) == Value(all[i].hi) + 1
    requires Value(all[0].lo) <= cp <= Value(all[n - 1].hi)
    ensures Covers(all, cp)
  {
    hide Value;
    if n > 1 && cp <= Value(all[n - 2].hi) {
      AdjacentCovers(all, n - 1, cp);
    } else if n > 1 {
      assert Value(all[(n - 2) + 1].lo) == Value(all[n - 2].hi) + 1;
    }
  }

  /** Ranges that are apart and hold exactly the code points are adjacent from first to last. */
  lemma ApartAdjacent(all: seq<Span>)
    requires Sorted(all) && Proper(all) && Apart(all)
    requires forall cp :: Covers(all, cp) <==> 0 <= cp <= MAX_CP
    ensures all != [] && Value(all[0].lo) == 0 && Value(all[|all| - 1].hi) == MAX_CP
    ensures forall i :: 0 <= i && i + 1 < |all| ==> Value(all[i + 1].lo) == Value(all[i].hi) + 1
  {
    hide Value;
    assert Covers(all, 0) && Covers(all, MAX_CP);
    var last := |all| - 1;
    assert Covers(all, Value(all[last].lo)) && Covers(all, Value(all[last].hi));
    assert forall l :: 0 <= l < last ==> Value(all[l].hi) < Value(all[last].lo);
    forall i | 0 <= i && i + 1 < |all| ensures Value(all[i + 1].lo) == Value(all[i].hi) + 1 {
      var cp := Value(all[i].hi) + 1;
      assert forall k :: 0 <= k < i ==> Value(all[k].hi) < Value(all[i].lo);
      assert forall k :: i + 1 < k < |all| ==> Value(all[i + 1].lo) <= Value(all[k].lo);
      assert Covers(all, Value(all[i + 1].lo));
      assert Value(all[i].hi) < Value(all[i + 1].lo);
      assert Covers(all, cp);
    }
  }

  predicate Misses(s: Span, t: Span) { Value(s.hi) < Value(t.lo) || Value(t.hi) < Value(s.lo) }

  predicate Disjoint(m: seq<Span>) { forall i, j :: 0 <= i < j < |m| ==> Misses(m[i], m[j]) }

  /** Sorting puts ranges apart exactly when no two of them meet. */
  lemma SortedApart(m: seq<Span>)
    requires Proper(m)
    ensures Apart(SpansSorted(m)) <==> Disjoint(m)
  {
    hide Value, Rank, Placed;
    SortedExact(m);
    SortedCovers(m, 0);
    var all := SpansSorted(m);
    if Apart(all) {
      forall i, j | 0 <= i < j < |m| ensures Misses(m[i], m[j]) {
        RanksDiffer(m, i, j);
        assert all[Rank(m, i)] == m[i] && all[Rank(m, j)] == m[j];
      }
    }
    if Disjoint(m) {
      forall k, l | 0 <= k < l < |all| ensures Value(all[k].hi) < Value(all[l].lo) {
        var i, j := Placed(m, k), Placed(m, l);
        assert Misses(m[i], m[j]) || Misses(m[j], m[i]);
        assert Value(all[k].lo) <= Value(all[l].lo) <= Value(all[l].hi);
      }
    }
  }

  lemma JoinCovers(a: seq<Span>, b: seq<Span>, cp: int)
    ensures Covers(a + b, cp) <==> Covers(a, cp) || Covers(b, cp)
    ensures Proper(a) && Proper(b) ==> Proper(a + b)
  {
    hide Value;
    var m := a + b;
    assert forall i :: 0 <= i < |a| ==> m[i] == a[i];
    assert forall i :: 0 <= i < |b| ==> m[|a| + i] == b[i];
  }

  lemma JoinDisjoint(a: seq<Span>, b: seq<Span>)
    requires Canon(a) && Canon(b)
    ensures Disjoint(a + b) <==> forall cp :: !(Covers(a, cp) && Covers(b, cp))
  {
    hide Value;
    var m := a + b;
    if Disjoint(m) {
      forall cp ensures !(Covers(a, cp) && Covers(b, cp)) {
        forall i, j | 0 <= i < |a| && 0 <= j < |b| ensures Misses(a[i], b[j]) { assert Misses(m[i], m[|a| + j]); }
      }
    }
    if forall cp :: !(Covers(a, cp) && Covers(b, cp)) {
      forall i, j | 0 <= i < |a| && 0 <= j < |b| ensures Misses(a[i], b[j]) {
        var cp := if Value(a[i].lo) < Value(b[j].lo) then Value(b[j].lo) else Value(a[i].lo);
        assert !Misses(a[i], b[j]) ==> Covers(a, cp) && Covers(b, cp);
      }
      forall i, j | 0 <= i < j < |m| ensures Misses(m[i], m[j]) {
        if i < |a| && |a| <= j { assert Misses(a[i], b[j - |a|]); }
      }
    }
  }

  /** Two lists tile exactly when every code point is in one of them, and in one only. */
  lemma TileExact(a: seq<Span>, b: seq<Span>)
    requires Proper(a) && Proper(b)
    ensures SpansTile(a, b) <==> forall cp ::
              (Covers(a, cp) || Covers(b, cp) <==> 0 <= cp <= MAX_CP) && !(Covers(a, cp) && Covers(b, cp))
  {
    hide Value, SpansMerged, SpansSorted, Adjacent, CpOrder, Disjoint, Apart, Covers;
    var x, y := SpansMerged(a), SpansMerged(b);
    MergedExact(a);
    MergedExact(b);
    var m := x + y;
    var all := SpansSorted(m);
    JoinCovers(x, y, 0);
    SortedExact(m);
    SortedCovers(m, 0);
    SortedApart(m);
    JoinDisjoint(x, y);
    TileMeans(all);
    forall cp ensures Covers(all, cp) <==> Covers(a, cp) || Covers(b, cp) {
      JoinCovers(x, y, cp);
      SortedCovers(m, cp);
    }
    forall cp ensures Covers(x, cp) && Covers(y, cp) <==> Covers(a, cp) && Covers(b, cp) { }
  }

  /** Sorted ranges run from the first code point to the last without a break exactly when they
      are apart and hold every code point. */
  lemma TileMeans(all: seq<Span>)
    requires Sorted(all) && Proper(all)
    ensures all != [] && CpIs(all[0].lo, FIRST) && CpIs(all[|all| - 1].hi, LAST) && Adjacent(all) <==>
            Apart(all) && forall cp :: Covers(all, cp) <==> 0 <= cp <= MAX_CP
  {
    hide Value, CpOrder, Adjacent, Covers, Apart, Sorted, Proper;
    Ends();
    AdjacentMeans(all);
    if all != [] && CpIs(all[0].lo, FIRST) && CpIs(all[|all| - 1].hi, LAST) && Adjacent(all) { AdjacentTiles(all); }
    if Apart(all) && forall cp :: Covers(all, cp) <==> 0 <= cp <= MAX_CP { ApartAdjacent(all); }
  }

  lemma AdjacentTiles(all: seq<Span>)
    requires Sorted(all) && Proper(all) && all != [] && Value(all[0].lo) == 0 && Value(all[|all| - 1].hi) == MAX_CP
    requires forall i :: 0 <= i && i + 1 < |all| ==> Value(all[i + 1].lo) == Value(all[i].hi) + 1
    ensures Apart(all) && forall cp :: Covers(all, cp) <==> 0 <= cp <= MAX_CP
  {
    hide Value, Covers;
    forall i, j | 0 <= i < j < |all| ensures Value(all[i].hi) < Value(all[j].lo) { AdjacentApart(all, i, j); }
    forall cp ensures Covers(all, cp) <==> 0 <= cp <= MAX_CP {
      if 0 <= cp <= MAX_CP { AdjacentCovers(all, |all|, cp); }
      if Covers(all, cp) { WithinEnds(all, cp); }
    }
  }

  lemma Ends()
    ensures Value(FIRST) == 0 && Value(LAST) == MAX_CP
  {
  }

  lemma WithinEnds(all: seq<Span>, cp: int)
    requires Sorted(all) && Proper(all) && Apart(all) && Covers(all, cp)
    ensures Value(all[0].lo) <= cp <= Value(all[|all| - 1].hi)
  {
    hide Value;
    var i :| 0 <= i < |all| && Value(all[i].lo) <= cp <= Value(all[i].hi);
    assert i + 1 < |all| ==> Value(all[i].hi) < Value(all[|all| - 1].lo);
  }
}
