/** References written back: runs of a rule's alternatives that are another rule's alternatives,
    each before one same tail, become a reference and the tail. Expanding them again gives the
    rule's alternatives, in order, none lost or repeated. */
module Unsub {
  import opened Text
  import opened Render

  /** An element by its key, and the rule it refers to, where it is a plain reference. */
  datatype El = El(key: string, rule: Option<string>)

  datatype Candidate = Candidate(name: string, keys: seq<seq<string>>)

  const SEP: string := "\U{1}"

  /** What stands for no tail. */
  const ABSENT: string := "\0"

  /** Keys are printable text: token names, `@` and a rule's name, and brackets around them. */
  predicate PlainKey(k: string) { k != "" && forall i :: 0 <= i < |k| ==> k[i] > '\U{1}' }

  predicate PlainKeys(ks: seq<string>) { forall i :: 0 <= i < |ks| ==> PlainKey(ks[i]) }

  function KeysOf(alt: seq<El>): (ks: seq<string>)
    ensures |ks| == |alt| && forall i :: 0 <= i < |alt| ==> ks[i] == alt[i].key
  {
    seq(|alt|, i requires 0 <= i < |alt| => alt[i].key)
  }

  function AllKeys(alts: seq<seq<El>>): (ka: seq<seq<string>>)
    ensures |ka| == |alts| && forall i :: 0 <= i < |alts| ==> ka[i] == KeysOf(alts[i])
  {
    seq(|alts|, i requires 0 <= i < |alts| => KeysOf(alts[i]))
  }

  // ---- keys compared as joined text

  function Joined(ks: seq<string>): (s: string) { Join(ks, SEP) }

  lemma {:induction false} JoinedEmpty(ks: seq<string>)
    requires PlainKeys(ks)
    ensures Joined(ks) == "" <==> ks == []
    ensures ks != [] ==> Joined(ks)[0] == ks[0][0]
  {
    if ks != [] { assert PlainKey(ks[0]); }
  }

  lemma KeyEnds(k: string, rest: string)
    requires PlainKey(k) && (rest == "" || rest[0] == '\U{1}')
    ensures RunLength(k + rest, c => c > '\U{1}') == |k|
  {
    RunLengthIs(k, rest, c => c > '\U{1}');
  }

  lemma JoinedSplits(ks: seq<string>)
    requires ks != []
    ensures Joined(ks) == ks[0] + (if |ks| == 1 then "" else SEP + Joined(ks[1..]))
  {
    if |ks| > 1 { assert ks[0] + SEP + Joined(ks[1..]) == ks[0] + (SEP + Joined(ks[1..])); }
  }

  /** Joined texts tell plain keys apart. */
  lemma {:induction false} JoinedInjective(a: seq<string>, b: seq<string>)
    requires PlainKeys(a) && PlainKeys(b) && Joined(a) == Joined(b)
    ensures a == b
  {
    hide Joined, PlainKey, RunLength;
    JoinedEmpty(a);
    JoinedEmpty(b);
    if a != [] {
      JoinedSplits(a);
      JoinedSplits(b);
      var ra := if |a| == 1 then "" else SEP + Joined(a[1..]);
      var rb := if |b| == 1 then "" else SEP + Joined(b[1..]);
      KeyEnds(a[0], ra);
      KeyEnds(b[0], rb);
      assert a[0] == (a[0] + ra)[..|a[0]|] && b[0] == (b[0] + rb)[..|b[0]|];
      assert ra == (a[0] + ra)[|a[0]|..] && rb == (b[0] + rb)[|b[0]|..];
      assert |ra| == 0 <==> |rb| == 0;
      if ra != "" {
        assert ra[1..] == Joined(a[1..]) && rb[1..] == Joined(b[1..]);
        JoinedInjective(a[1..], b[1..]);
      }
      assert a == [a[0]] + a[1..] && b == [b[0]] + b[1..];
    }
  }

  /** What follows the candidate's keys in the alternative's, joined. */
  function PrefixTail(ks: seq<string>, cs: seq<string>): (t: string) {
    if |ks| < |cs| then ABSENT
    else if Joined(ks[..|cs|]) == Joined(cs) then Joined(ks[|cs|..])
    else ABSENT
  }

  lemma PlainSlices(ks: seq<string>, n: nat)
    requires PlainKeys(ks) && n <= |ks|
    ensures PlainKeys(ks[..n]) && PlainKeys(ks[n..])
  {
  }

  lemma NotAbsent(ks: seq<string>)
    requires PlainKeys(ks)
    ensures Joined(ks) != ABSENT
  {
    JoinedEmpty(ks);
    if ks != [] { assert PlainKey(ks[0]); }
  }

  /** A tail is found exactly when the alternative is the candidate's followed by it. */
  lemma PrefixTailExact(ks: seq<string>, cs: seq<string>, tail: seq<string>)
    requires PlainKeys(ks) && PlainKeys(cs) && PlainKeys(tail)
    ensures PrefixTail(ks, cs) == Joined(tail) <==> ks == cs + tail
  {
    hide Joined, PlainKey;
    NotAbsent(tail);
    if |cs| <= |ks| {
      PlainSlices(ks, |cs|);
      if Joined(ks[..|cs|]) == Joined(cs) { JoinedInjective(ks[..|cs|], cs); }
      if Joined(ks[|cs|..]) == Joined(tail) { JoinedInjective(ks[|cs|..], tail); }
      assert ks == ks[..|cs|] + ks[|cs|..];
    }
    if ks == cs + tail { assert ks[..|cs|] == cs && ks[|cs|..] == tail; }
  }

  // ---- candidates

  predicate Usable(c: Candidate) { c.keys != [] && forall j :: 0 <= j < |c.keys| ==> PlainKeys(c.keys[j]) }

  predicate AllUsable(cands: seq<Candidate>) { forall i :: 0 <= i < |cands| ==> Usable(cands[i]) }

  /** The candidate's alternatives, each followed by one same tail, stand from position `i` on. */
  predicate CandMatches(c: Candidate, ka: seq<seq<string>>, i: nat)
    requires c.keys != []
  {
    i + |c.keys| <= |ka| &&
    PrefixTail(ka[i], c.keys[0]) != ABSENT &&
    forall j :: 0 <= j < |c.keys| ==> PrefixTail(ka[i + j], c.keys[j]) == PrefixTail(ka[i], c.keys[0])
  }

  function Hits(cands: seq<Candidate>, ka: seq<seq<string>>, i: nat, self: string): (hs: seq<Candidate>)
    requires AllUsable(cands)
    ensures forall c :: c in hs <==> c in cands && c.name != self && CandMatches(c, ka, i)
  {
    if cands == [] then []
    else (if cands[0].name != self && CandMatches(cands[0], ka, i) then [cands[0]] else []) + Hits(cands[1..], ka, i, self)
  }

  /** None of the hits has more alternatives. */
  predicate Tops(hits: seq<Candidate>, c: Candidate) { forall d :: d in hits ==> |d.keys| <= |c.keys| }

  /** The first of those with the most alternatives. */
  function Largest(hits: seq<Candidate>, rest: seq<Candidate>): (r: Option<Candidate>)
    ensures r.Some? ==> r.value in rest && forall d :: d in hits ==> |d.keys| <= |r.value.keys|
    ensures r.None? ==> forall c :: c in rest ==> exists d :: d in hits && |c.keys| < |d.keys|
  {
    if rest == [] then None
    else if Tops(hits, rest[0]) then Some(rest[0])
    else Largest(hits, rest[1..])
  }

  function CandAt(cands: seq<Candidate>, ka: seq<seq<string>>, i: nat, self: string): (r: Option<Candidate>)
    requires AllUsable(cands)
  {
    var hits := Hits(cands, ka, i, self);
    Largest(hits, hits)
  }

  lemma {:induction false} MostAlternatives(hits: seq<Candidate>) returns (m: Candidate)
    requires hits != []
    ensures m in hits && forall d :: d in hits ==> |d.keys| <= |m.keys|
  {
    m := hits[0];
    if |hits| > 1 {
      var n := MostAlternatives(hits[1..]);
      if |m.keys| < |n.keys| { m := n; }
    }
  }

  /** A candidate is chosen exactly where one stands, and none that stands there has more
      alternatives. */
  lemma CandAtExact(cands: seq<Candidate>, ka: seq<seq<string>>, i: nat, self: string)
    requires AllUsable(cands)
    ensures var r := CandAt(cands, ka, i, self);
            && (r.None? <==> forall c :: c in cands && c.name != self ==> !CandMatches(c, ka, i))
            && (r.Some? ==> r.value in cands && r.value.name != self && CandMatches(r.value, ka, i))
            && (r.Some? ==> forall d :: d in cands && d.name != self && CandMatches(d, ka, i) ==> |d.keys| <= |r.value.keys|)
  {
    hide CandMatches;
    var hits := Hits(cands, ka, i, self);
    if hits != [] { var m := MostAlternatives(hits); }
  }

  // ---- writing back

  /** What stands for an alternative: itself, or the reference for a run and its tail. */
  datatype Written = Kept(alt: seq<El>) | Back(to: Candidate, tail: seq<El>)

  function RefEl(name: string): (el: El) { El("@" + name, Some(name)) }

  function AltOf(w: Written): (alt: seq<El>) {
    match w case Kept(alt) => alt case Back(to, tail) => [RefEl(to.name)] + tail
  }

  /** The best candidates, one position each. */
  function Bests(cands: seq<Candidate>, ka: seq<seq<string>>, self: string): (bs: seq<Option<Candidate>>)
    requires AllUsable(cands)
    ensures |bs| == |ka| && forall i :: 0 <= i < |ka| ==> bs[i] == CandAt(cands, ka, i, self)
  {
    seq(|ka|, i requires 0 <= i < |ka| => CandAt(cands, ka, i, self))
  }

  /** The run at `j` goes over `i`. */
  predicate CoversAt(best: seq<Option<Candidate>>, j: nat, i: nat) {
    j < |best| && best[j].Some? && j < i < j + |best[j].value.keys|
  }

  predicate Accepted(best: seq<Option<Candidate>>, i: nat) {
    i < |best| && best[i].Some? && forall j: nat :: j < |best| ==> !CoversAt(best, j, i)
  }

  predicate Inside(best: seq<Option<Candidate>>, i: nat) {
    exists j: nat :: j < |best| && Accepted(best, j) && CoversAt(best, j, i)
  }

  function WrittenAt(alts: seq<seq<El>>, best: seq<Option<Candidate>>, i: nat): (w: seq<Written>)
    requires |best| == |alts| && i < |alts|
    requires Accepted(best, i) ==> best[i].value.keys != [] && |best[i].value.keys[0]| <= |alts[i]|
  {
    if Accepted(best, i) then [Back(best[i].value, alts[i][|best[i].value.keys[0]|..])]
    else if Inside(best, i) then []
    else [Kept(alts[i])]
  }

  /** Every accepted position has a candidate that stands there. */
  ghost predicate Sound(alts: seq<seq<El>>, best: seq<Option<Candidate>>) {
    |best| == |alts| &&
    forall i :: 0 <= i < |best| ==> best[i].Some? ==> Usable(best[i].value) && CandMatches(best[i].value, AllKeys(alts), i)
  }

  lemma AcceptedFits(alts: seq<seq<El>>, best: seq<Option<Candidate>>, i: nat)
    requires Sound(alts, best) && i < |best|
    ensures Accepted(best, i) ==> best[i].value.keys != [] && |best[i].value.keys[0]| <= |alts[i]|
  {
    hide CandMatches;
    if best[i].Some? { FirstFits(alts, best, i); }
  }

  lemma FirstFits(alts: seq<seq<El>>, best: seq<Option<Candidate>>, i: nat)
    requires Sound(alts, best) && i < |best| && best[i].Some?
    ensures |best[i].value.keys[0]| <= |alts[i]|
  {
    hide Joined;
    var ka := AllKeys(alts);
    assert PrefixTail(ka[i], best[i].value.keys[0]) != ABSENT;
  }

  function WrittenFrom(alts: seq<seq<El>>, best: seq<Option<Candidate>>, i: nat): (w: seq<Written>)
    requires Sound(alts, best) && i <= |alts|
    decreases |alts| - i
  {
    if i == |alts| then []
    else
      AcceptedFits(alts, best, i);
      WrittenAt(alts, best, i) + WrittenFrom(alts, best, i + 1)
  }

  /** No alternatives but one reference: what the compiler would leave a reference. */
  predicate Alias(alts: seq<seq<El>>) { |alts| == 1 && |alts[0]| == 1 && alts[0][0].rule.Some? }

  function AltsOf(ws: seq<Written>): (alts: seq<seq<El>>)
    ensures |alts| == |ws| && forall i :: 0 <= i < |ws| ==> alts[i] == AltOf(ws[i])
  {
    seq(|ws|, i requires 0 <= i < |ws| => AltOf(ws[i]))
  }

  lemma BestsSound(cands: seq<Candidate>, self: string, alts: seq<seq<El>>)
    requires AllUsable(cands)
    ensures Sound(alts, Bests(cands, AllKeys(alts), self))
  {
    hide CandMatches, CandAt;
    forall i | 0 <= i < |alts| { CandAtExact(cands, AllKeys(alts), i, self); }
  }

  /** What is written for a rule's alternatives, each reference with the run it stands for. */
  function Writing(cands: seq<Candidate>, self: string, alts: seq<seq<El>>): (ws: seq<Written>)
    requires AllUsable(cands)
  {
    BestsSound(cands, self, alts);
    WrittenFrom(alts, Bests(cands, AllKeys(alts), self), 0)
  }

  /** A rule's alternatives with the references written back. */
  function Unsub(cands: seq<Candidate>, self: string, alts: seq<seq<El>>): (r: seq<seq<El>>)
    requires AllUsable(cands)
  {
    if cands == [] then alts
    else
      var out := AltsOf(Writing(cands, self, alts));
      if Alias(out) then alts else out
  }

  // ---- expanding again

  /** A reference written back stands for its candidate's alternatives, each before the tail. */
  function ExpandOne(w: Written): (ka: seq<seq<string>>) {
    match w
    case Kept(alt) => [KeysOf(alt)]
    case Back(c, tail) => seq(|c.keys|, j requires 0 <= j < |c.keys| => c.keys[j] + KeysOf(tail))
  }

  function Expand(ws: seq<Written>): (ka: seq<seq<string>>) {
    if ws == [] then [] else ExpandOne(ws[0]) + Expand(ws[1..])
  }

  lemma ExpandCons(w: Written, ws: seq<Written>)
    ensures Expand([w] + ws) == ExpandOne(w) + Expand(ws)
  {
    assert ([w] + ws)[1..] == ws;
  }

  predicate PlainAlts(alts: seq<seq<El>>) { forall i :: 0 <= i < |alts| ==> PlainKeys(KeysOf(alts[i])) }

  /** The run a reference stands for is the run it was found at. */
  lemma BackExpands(alts: seq<seq<El>>, best: seq<Option<Candidate>>, i: nat)
    requires Sound(alts, best) && PlainAlts(alts) && i < |alts| && Accepted(best, i)
    requires |best[i].value.keys[0]| <= |alts[i]|
    ensures var c := best[i].value; var tail := alts[i][|c.keys[0]|..];
            i + |c.keys| <= |alts| && ExpandOne(Back(c, tail)) == AllKeys(alts)[i..i + |c.keys|]
  {
    hide Joined, PlainKeys, PrefixTail;
    var ka, c := AllKeys(alts), best[i].value;
    var tail := alts[i][|c.keys[0]|..];
    var ks := KeysOf(tail);
    assert ks == ka[i][|c.keys[0]|..];
    assert PlainKeys(c.keys[0]) && PlainKeys(KeysOf(alts[i]));
    PlainSlices(ka[i], |c.keys[0]|);
    FirstTail(ka[i], c.keys[0]);
    forall j | 0 <= j < |c.keys| ensures ka[i + j] == c.keys[j] + ks {
      assert PlainKeys(c.keys[j]) && PlainKeys(KeysOf(alts[i + j]));
      PrefixTailExact(ka[i + j], c.keys[j], ks);
    }
  }

  lemma FirstTail(ks: seq<string>, cs: seq<string>)
    requires |cs| <= |ks| && PrefixTail(ks, cs) != ABSENT
    ensures PrefixTail(ks, cs) == Joined(ks[|cs|..])
  {
  }

  /** Positions a run goes over write nothing. */
  lemma {:induction false} SkipRun(alts: seq<seq<El>>, best: seq<Option<Candidate>>, i: nat, m: nat)
    requires Sound(alts, best) && i < |alts| && Accepted(best, i)
    requires i < m <= i + |best[i].value.keys| <= |alts|
    ensures WrittenFrom(alts, best, m) == WrittenFrom(alts, best, i + |best[i].value.keys|)
    decreases |alts| - m
  {
    hide CandMatches, Usable;
    if m < i + |best[i].value.keys| {
      assert CoversAt(best, i, m);
      AcceptedFits(alts, best, m);
      assert WrittenAt(alts, best, m) == [];
      SkipRun(alts, best, i, m + 1);
    }
  }

  lemma AfterRun(best: seq<Option<Candidate>>, i: nat)
    requires Accepted(best, i) && best[i].value.keys != []
    ensures !Inside(best, i + |best[i].value.keys|)
  {
    forall j: nat | j < |best| && Accepted(best, j) ensures !CoversAt(best, j, i + |best[i].value.keys|) {
      assert !CoversAt(best, j, i) && !CoversAt(best, i, j);
    }
  }

  lemma AfterKept(best: seq<Option<Candidate>>, i: nat)
    requires !Inside(best, i) && !Accepted(best, i)
    ensures !Inside(best, i + 1)
  {
    forall j: nat | j < |best| && Accepted(best, j) ensures !CoversAt(best, j, i + 1) { assert !CoversAt(best, j, i); }
  }

  lemma RunStep(alts: seq<seq<El>>, best: seq<Option<Candidate>>, i: nat)
    requires Sound(alts, best) && PlainAlts(alts) && i < |alts| && Accepted(best, i)
    ensures best[i].Some? && best[i].value.keys != [] && i + |best[i].value.keys| <= |alts|
    ensures var n := i + |best[i].value.keys|;
            Expand(WrittenFrom(alts, best, i)) == AllKeys(alts)[i..n] + Expand(WrittenFrom(alts, best, n))
  {
    assert |best| == |alts|;
    hide CoversAt, Accepted, CandMatches, PlainKeys, Expand, Usable, AllKeys, Sound, PlainAlts;
    AcceptedFits(alts, best, i);
    HasCandidate(alts, best, i);
    BackExpands(alts, best, i);
    SkipRun(alts, best, i, i + 1);
    var c := best[i].value;
    ExpandCons(Back(c, alts[i][|c.keys[0]|..]), WrittenFrom(alts, best, i + |c.keys|));
  }

  lemma KeptStep(alts: seq<seq<El>>, best: seq<Option<Candidate>>, i: nat)
    requires Sound(alts, best) && i < |alts| && !Accepted(best, i) && !Inside(best, i)
    ensures Expand(WrittenFrom(alts, best, i)) == [AllKeys(alts)[i]] + Expand(WrittenFrom(alts, best, i + 1))
  {
    assert |best| == |alts|;
    hide Inside, Accepted, Expand, Sound;
    AcceptedFits(alts, best, i);
    ExpandCons(Kept(alts[i]), WrittenFrom(alts, best, i + 1));
  }

  /** A suffix of the alternatives expands to its keys. */
  predicate ExpandsAt(alts: seq<seq<El>>, best: seq<Option<Candidate>>, i: nat)
    requires Sound(alts, best) && i <= |alts|
  {
    Expand(WrittenFrom(alts, best, i)) == AllKeys(alts)[i..]
  }

  lemma ExpandsRun(alts: seq<seq<El>>, best: seq<Option<Candidate>>, i: nat, n: nat)
    requires Sound(alts, best) && i <= n <= |alts| && ExpandsAt(alts, best, n)
    requires Expand(WrittenFrom(alts, best, i)) == AllKeys(alts)[i..n] + Expand(WrittenFrom(alts, best, n))
    ensures ExpandsAt(alts, best, i)
  {
    hide Expand, WrittenFrom, Sound, AllKeys;
    SplitAt(AllKeys(alts), i, n);
  }

  lemma {:induction false} Expands(alts: seq<seq<El>>, best: seq<Option<Candidate>>, i: nat)
    requires Sound(alts, best) && PlainAlts(alts) && i <= |alts| == |best| && !Inside(best, i)
    ensures ExpandsAt(alts, best, i)
    decreases |alts| - i
  {
    hide Inside, Accepted, Expand, WrittenFrom, Sound, PlainAlts, ExpandsAt, AllKeys;
    if i == |alts| {
      NothingLeft(alts, best);
    } else if Accepted(best, i) {
      RunStep(alts, best, i);
      AfterRun(best, i);
      Expands(alts, best, i + |best[i].value.keys|);
      ExpandsRun(alts, best, i, i + |best[i].value.keys|);
    } else {
      KeptStep(alts, best, i);
      AfterKept(best, i);
      Expands(alts, best, i + 1);
      SplitAt(AllKeys(alts), i, i + 1);
      ExpandsRun(alts, best, i, i + 1);
    }
  }

  lemma SplitAt<T>(s: seq<T>, i: nat, n: nat)
    requires i <= n <= |s|
    ensures s[i..] == s[i..n] + s[n..] && (n == i + 1 ==> s[i..n] == [s[i]])
  {
  }

  lemma NothingLeft(alts: seq<seq<El>>, best: seq<Option<Candidate>>)
    requires Sound(alts, best)
    ensures ExpandsAt(alts, best, |alts|)
  {
  }

  lemma HasCandidate(alts: seq<seq<El>>, best: seq<Option<Candidate>>, i: nat)
    requires Sound(alts, best) && Accepted(best, i)
    ensures best[i].Some? && best[i].value.keys != []
  {
  }

  /** Runs that are written back never overlap. */
  lemma RunsApart(best: seq<Option<Candidate>>, i: nat, j: nat)
    requires i < j && Accepted(best, i) && Accepted(best, j)
    ensures i + |best[i].value.keys| <= j
  {
    assert !CoversAt(best, i, j);
  }

  /** Writing references back and expanding each into its candidate's alternatives, before their
      common tail, gives the original alternatives, in order. */
  lemma UnsubExpands(cands: seq<Candidate>, self: string, alts: seq<seq<El>>)
    requires AllUsable(cands) && PlainAlts(alts)
    ensures var ws := Writing(cands, self, alts);
            && (Unsub(cands, self, alts) == alts || Unsub(cands, self, alts) == AltsOf(ws))
            && Expand(ws) == AllKeys(alts)
            && forall w :: w in ws && w.Back? ==> w.to in cands && w.to.name != self
  {
    hide Sound, WrittenFrom, Expand, Usable, PlainAlts, Inside;
    BestsSound(cands, self, alts);
    var best := Bests(cands, AllKeys(alts), self);
    var ws := WrittenFrom(alts, best, 0);
    NothingBefore(best);
    Expands(alts, best, 0);
    forall w | w in ws && w.Back? ensures w.to in cands && w.to.name != self { FromCandidates(cands, self, alts, 0, w); }
    assert AllKeys(alts)[0..] == AllKeys(alts);
  }

  lemma NothingBefore(best: seq<Option<Candidate>>)
    ensures !Inside(best, 0)
  {
  }

  lemma {:induction false} FromCandidates(cands: seq<Candidate>, self: string, alts: seq<seq<El>>, i: nat, w: Written)
    requires AllUsable(cands) && i <= |alts|
    requires Sound(alts, Bests(cands, AllKeys(alts), self))
    requires w in WrittenFrom(alts, Bests(cands, AllKeys(alts), self), i) && w.Back?
    ensures w.to in cands && w.to.name != self
    decreases |alts| - i
  {
    hide Sound, CandAt, Inside;
    var best := Bests(cands, AllKeys(alts), self);
    if i < |alts| {
      AcceptedFits(alts, best, i);
      if w in WrittenAt(alts, best, i) {
        CandAtExact(cands, AllKeys(alts), i, self);
      } else {
        FromCandidates(cands, self, alts, i + 1, w);
      }
    }
  }

  // ---- which references are written back, said of the alternatives alone

  /** The candidate's alternatives stand from `i` on, each before this tail. */
  predicate StandsWith(c: Candidate, ka: seq<seq<string>>, i: nat, tail: seq<string>) {
    i + |c.keys| <= |ka| && forall j :: 0 <= j < |c.keys| ==> ka[i + j] == c.keys[j] + tail
  }

  ghost predicate StandsAt(c: Candidate, ka: seq<seq<string>>, i: nat) { exists tail :: StandsWith(c, ka, i, tail) }

  predicate AllPlain(ka: seq<seq<string>>) { forall i :: 0 <= i < |ka| ==> PlainKeys(ka[i]) }

  /** Comparing joined keys finds a candidate exactly where its alternatives stand. */
  lemma MatchesExact(c: Candidate, ka: seq<seq<string>>, i: nat)
    requires Usable(c) && AllPlain(ka)
    ensures CandMatches(c, ka, i) <==> StandsAt(c, ka, i)
  {
    hide PrefixTail, PlainKeys;
    if CandMatches(c, ka, i) {
      LongEnough(ka[i], c.keys[0]);
      var tail := ka[i][|c.keys[0]|..];
      PlainSlices(ka[i], |c.keys[0]|);
      FirstTail(ka[i], c.keys[0]);
      forall j | 0 <= j < |c.keys| ensures ka[i + j] == c.keys[j] + tail { PrefixTailExact(ka[i + j], c.keys[j], tail); }
      assert StandsWith(c, ka, i, tail);
    }
    if StandsAt(c, ka, i) {
      var tail :| StandsWith(c, ka, i, tail);
      assert ka[i + 0] == c.keys[0] + tail;
      PlainTail(c.keys[0], tail);
      NotAbsent(tail);
      forall j | 0 <= j < |c.keys| ensures PrefixTail(ka[i + j], c.keys[j]) == Joined(tail) { PrefixTailExact(ka[i + j], c.keys[j], tail); }
      assert PrefixTail(ka[i + 0], c.keys[0]) == Joined(tail);
    }
  }

  lemma LongEnough(ks: seq<string>, cs: seq<string>)
    requires PrefixTail(ks, cs) != ABSENT
    ensures |cs| <= |ks|
  {
  }

  lemma PlainTail(cs: seq<string>, tail: seq<string>)
    requires PlainKeys(cs + tail)
    ensures PlainKeys(tail)
  {
    assert forall i :: 0 <= i < |tail| ==> (cs + tail)[|cs| + i] == tail[i];
  }

  /** A candidate other than the rule itself stands at `i`. */
  ghost predicate Fits(cands: seq<Candidate>, self: string, ka: seq<seq<string>>, i: nat, c: Candidate) {
    c in cands && c.name != self && StandsAt(c, ka, i)
  }

  /** Of those that stand at `i` it has the most alternatives, and of those it is the first. */
  ghost predicate Chosen(cands: seq<Candidate>, self: string, ka: seq<seq<string>>, i: nat, n: nat) {
    && n < |cands| && Fits(cands, self, ka, i, cands[n])
    && (forall m: nat :: m < |cands| && Fits(cands, self, ka, i, cands[m]) ==>
          |cands[m].keys| < |cands[n].keys| || (|cands[m].keys| == |cands[n].keys| && n <= m))
  }

  /** A candidate that stands earlier goes over `i`. */
  ghost predicate RunsOver(cands: seq<Candidate>, self: string, ka: seq<seq<string>>, i: nat) {
    exists j: nat, c: Candidate :: j < i < j + |c.keys| && Fits(cands, self, ka, j, c)
  }

  /** A reference is written back at `i`. */
  ghost predicate Backs(cands: seq<Candidate>, self: string, ka: seq<seq<string>>, i: nat) {
    (exists c :: Fits(cands, self, ka, i, c)) && !RunsOver(cands, self, ka, i)
  }

  /** What is written from `i` on: where a reference is written back, the chosen candidate and what
      follows its first alternative, for as many alternatives as it has; elsewhere the alternative. */
  ghost predicate Writes(cands: seq<Candidate>, self: string, alts: seq<seq<El>>, i: nat, ws: seq<Written>)
    decreases |ws|
  {
    if |alts| <= i || ws == [] then i == |alts| && ws == []
    else if Backs(cands, self, AllKeys(alts), i) then
      && ws[0].Back?
      && (exists n: nat :: Chosen(cands, self, AllKeys(alts), i, n) && ws[0].to == cands[n])
      && ws[0].to.keys != [] && |ws[0].to.keys[0]| <= |alts[i]| && ws[0].tail == alts[i][|ws[0].to.keys[0]|..]
      && Writes(cands, self, alts, i + |ws[0].to.keys|, ws[1..])
    else ws[0] == Kept(alts[i]) && Writes(cands, self, alts, i + 1, ws[1..])
  }

  lemma HitsStep(cands: seq<Candidate>, ka: seq<seq<string>>, i: nat, self: string)
    requires AllUsable(cands) && cands != []
    ensures AllUsable(cands[1..])
    ensures Hits(cands, ka, i, self) ==
            (if cands[0].name != self && CandMatches(cands[0], ka, i) then [cands[0]] else []) + Hits(cands[1..], ka, i, self)
  {
    hide CandMatches, Usable;
  }

  lemma LargestStep(hits: seq<Candidate>, c: Candidate, rest: seq<Candidate>)
    ensures Largest(hits, [c] + rest) == if Tops(hits, c) then Some(c) else Largest(hits, rest)
    ensures Largest(hits, [] + rest) == Largest(hits, rest)
  {
    hide Tops;
    assert ([c] + rest)[0] == c && ([c] + rest)[1..] == rest && [] + rest == rest;
  }

  lemma NoneLargest(hits: seq<Candidate>, ka: seq<seq<string>>, i: nat, self: string)
    ensures Largest(hits, Hits([], ka, i, self)).None?
  {
  }

  /** A candidate that another of the hits outdoes, if it stands there at all. */
  ghost predicate Outdone(hits: seq<Candidate>, ka: seq<seq<string>>, i: nat, self: string, c: Candidate)
    requires c.keys != []
  {
    c.name != self && CandMatches(c, ka, i) ==> !Tops(hits, c)
  }

  lemma {:induction false} FirstLargest(hits: seq<Candidate>, cands: seq<Candidate>, ka: seq<seq<string>>, i: nat, self: string)
    returns (n: nat)
    requires AllUsable(cands) && Largest(hits, Hits(cands, ka, i, self)).Some?
    ensures n < |cands| && cands[n] == Largest(hits, Hits(cands, ka, i, self)).value
    ensures forall m: nat :: m < n ==> Outdone(hits, ka, i, self, cands[m])
  {
    hide CandMatches, Hits, Largest, Tops;
    if cands == [] { NoneLargest(hits, ka, i, self); }
    HitsStep(cands, ka, i, self);
    var head, rest := cands[0], cands[1..];
    LargestStep(hits, head, Hits(rest, ka, i, self));
    if head.name != self && CandMatches(head, ka, i) && Tops(hits, head) {
      n := 0;
    } else {
      var k := FirstLargest(hits, rest, ka, i, self);
      n := k + 1;
      forall m: nat | m < n ensures Outdone(hits, ka, i, self, cands[m]) {
        if m > 0 { assert cands[m] == rest[m - 1]; }
      }
    }
  }

  lemma FitsExact(cands: seq<Candidate>, self: string, ka: seq<seq<string>>, i: nat, c: Candidate)
    requires AllUsable(cands) && AllPlain(ka) && c in cands
    ensures Fits(cands, self, ka, i, c) <==> c.name != self && CandMatches(c, ka, i)
  {
    hide CandMatches, StandsAt, AllPlain;
    MatchesExact(c, ka, i);
  }

  /** The candidate taken at a position is the chosen one, and there is one where any stands. */
  lemma CandAtChosen(cands: seq<Candidate>, self: string, ka: seq<seq<string>>, i: nat)
    requires AllUsable(cands) && AllPlain(ka)
    ensures CandAt(cands, ka, i, self).Some? <==> exists c :: Fits(cands, self, ka, i, c)
    ensures CandAt(cands, ka, i, self).Some? ==>
              exists n: nat :: Chosen(cands, self, ka, i, n) && cands[n] == CandAt(cands, ka, i, self).value
  {
    CandAtExact(cands, ka, i, self);
    forall c | c in cands ensures Fits(cands, self, ka, i, c) <==> c.name != self && CandMatches(c, ka, i) { FitsExact(cands, self, ka, i, c); }
    var r := CandAt(cands, ka, i, self);
    if r.Some? {
      assert Fits(cands, self, ka, i, r.value);
      var hits := Hits(cands, ka, i, self);
      var n := FirstLargest(hits, cands, ka, i, self);
      hide CandMatches, Hits, Largest, Fits;
      assert forall m: nat :: m < |cands| ==> cands[m] in cands;
      assert Chosen(cands, self, ka, i, n);
    }
  }

  lemma AcceptedExact(cands: seq<Candidate>, self: string, ka: seq<seq<string>>, i: nat)
    requires AllUsable(cands) && AllPlain(ka) && i < |ka|
    ensures Accepted(Bests(cands, ka, self), i) <==> Backs(cands, self, ka, i)
  {
    hide CandAt, Fits, AllPlain;
    var best := Bests(cands, ka, self);
    CandAtChosen(cands, self, ka, i);
    if RunsOver(cands, self, ka, i) {
      var j: nat, c: Candidate :| j < i < j + |c.keys| && Fits(cands, self, ka, j, c);
      CandAtChosen(cands, self, ka, j);
      var n: nat :| Chosen(cands, self, ka, j, n) && cands[n] == CandAt(cands, ka, j, self).value;
      LongestChosen(cands, self, ka, j, n, c);
      assert CoversAt(best, j, i);
    } else {
      forall j: nat | j < |best| ensures !CoversAt(best, j, i) {
        if best[j].Some? {
          CandAtChosen(cands, self, ka, j);
          var n: nat :| Chosen(cands, self, ka, j, n) && cands[n] == CandAt(cands, ka, j, self).value;
          assert Fits(cands, self, ka, j, best[j].value);
        }
      }
    }
  }

  lemma LongestChosen(cands: seq<Candidate>, self: string, ka: seq<seq<string>>, j: nat, n: nat, c: Candidate)
    requires Chosen(cands, self, ka, j, n) && Fits(cands, self, ka, j, c)
    ensures |c.keys| <= |cands[n].keys|
  {
    hide StandsAt;
    var m :| 0 <= m < |cands| && cands[m] == c;
  }

  lemma KeysPlain(alts: seq<seq<El>>)
    requires PlainAlts(alts)
    ensures AllPlain(AllKeys(alts))
  {
    hide PlainKeys;
  }

  lemma {:induction false} WritesFrom(cands: seq<Candidate>, self: string, alts: seq<seq<El>>, i: nat)
    requires AllUsable(cands) && PlainAlts(alts) && i <= |alts|
    requires Sound(alts, Bests(cands, AllKeys(alts), self)) && !Inside(Bests(cands, AllKeys(alts), self), i)
    ensures Writes(cands, self, alts, i, WrittenFrom(alts, Bests(cands, AllKeys(alts), self), i))
    decreases |alts| - i
  {
    hide Sound, Accepted, Inside, CandAt, Backs, Chosen, AllPlain, PlainAlts, AllKeys;
    var ka := AllKeys(alts);
    var best := Bests(cands, ka, self);
    var ws := WrittenFrom(alts, best, i);
    if i < |alts| {
      assert |ka| == |alts|;
      KeysPlain(alts);
      AcceptedFits(alts, best, i);
      AcceptedExact(cands, self, ka, i);
      if Accepted(best, i) {
        HasCandidate(alts, best, i);
        var c := best[i].value;
        BackExpands(alts, best, i);
        SkipRun(alts, best, i, i + 1);
        AfterRun(best, i);
        CandAtChosen(cands, self, ka, i);
        WritesFrom(cands, self, alts, i + |c.keys|);
        assert ws[1..] == WrittenFrom(alts, best, i + |c.keys|);
      } else {
        AfterKept(best, i);
        WritesFrom(cands, self, alts, i + 1);
        assert ws[1..] == WrittenFrom(alts, best, i + 1);
      }
    }
  }

  /** Writing back is exact. With candidates, each position where one stands, and over which none
      that stands earlier goes, is written as a reference to the chosen one and its tail, and every
      other position is kept or gone over; unless that leaves one reference alone, which leaves the
      alternatives as they are. */
  lemma UnsubExact(cands: seq<Candidate>, self: string, alts: seq<seq<El>>) returns (ws: seq<Written>, out: seq<seq<El>>)
    requires AllUsable(cands) && PlainAlts(alts)
    ensures Writes(cands, self, alts, 0, ws)
    ensures |out| == |ws| && forall k :: 0 <= k < |ws| ==>
              out[k] == match ws[k] case Kept(alt) => alt case Back(to, tail) => [El("@" + to.name, Some(to.name))] + tail
    ensures Unsub(cands, self, alts) ==
            if cands == [] || (|out| == 1 && |out[0]| == 1 && out[0][0].rule.Some?) then alts else out
  {
    hide Sound, WrittenFrom, Usable, PlainAlts, Inside, Writes, Bests;
    BestsSound(cands, self, alts);
    NothingBefore(Bests(cands, AllKeys(alts), self));
    WritesFrom(cands, self, alts, 0);
    ws := Writing(cands, self, alts);
    out := AltsOf(ws);
  }
}
