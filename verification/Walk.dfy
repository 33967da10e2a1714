/** The guard before a parse result is emitted as JSON: a walk of a possibly cyclic value that
    reports bad text, big numbers and cycles. Containers are walked with a set of the containers
    on the path from the root. */
module Walk {
  import opened Text

  /** A value as it will be emitted. `Plain` is whatever needs no look inside: null, booleans,
      machine numbers, bytes, and empty or nil containers. */
  datatype Value =
    | Plain
    | Str(valid: bool)           // a string, or a raw JSON fragment
    | Big                        // an arbitrary-precision number
    | Inline(parts: seq<Value>)  // an array's elements, or a struct's emitted fields
    | Hold(at: nat)              // a pointer, map or slice, by its identity

  /** What a container emits, in order: the keys of an object, and its values. */
  datatype Part = Name(valid: bool) | Item(v: Value)

  /** The containers of a value, by identity. */
  type Heap = map<nat, seq<Part>>

  datatype Reason = Safe | BadText | BigNumber | Cycle

  // ---- the walk

  function WalkValue(g: Heap, path: set<nat>, v: Value): (why: Reason)
    decreases |g.Keys - path|, v, 1
  {
    match v
    case Plain => Safe
    case Str(valid) => if valid then Safe else BadText
    case Big => BigNumber
    case Inline(parts) => WalkInline(g, path, parts)
    case Hold(at) =>
      if at !in g then Safe
      else if at in path then Cycle
      else
        Fewer(g, path, at);
        WalkParts(g, path + {at}, g[at])
  }

  function WalkInline(g: Heap, path: set<nat>, vs: seq<Value>): (why: Reason)
    decreases |g.Keys - path|, vs, 0
  {
    if vs == [] then Safe
    else if WalkValue(g, path, vs[0]) != Safe then WalkValue(g, path, vs[0])
    else WalkInline(g, path, vs[1..])
  }

  function WalkParts(g: Heap, path: set<nat>, parts: seq<Part>): (why: Reason)
    decreases |g.Keys - path|, parts, 0
  {
    if parts == [] then Safe
    else
      var part := parts[0];
      assert part.Item? ==> (parts decreases to part) && (part decreases to part.v);
      match part
      case Name(valid) => if valid then WalkParts(g, path, parts[1..]) else BadText
      case Item(v) =>
        if WalkValue(g, path, v) != Safe then WalkValue(g, path, v) else WalkParts(g, path, parts[1..])
  }

  lemma Fewer(g: Heap, path: set<nat>, at: nat)
    requires at in g && at !in path
    ensures |g.Keys - (path + {at})| < |g.Keys - path|
  {
    assert g.Keys - path == g.Keys - (path + {at}) + {at};
  }

  /** The walk as it runs: one set, into which a container is put on the way in and taken out on
      the way back. */
  class Walker {
    const g: Heap
    var onPath: set<nat>

    constructor (g: Heap)
      ensures this.g == g && onPath == {}
    {
      this.g := g;
      onPath := {};
    }

    method Visit(v: Value) returns (why: Reason)
      modifies this
      ensures onPath == old(onPath) && why == WalkValue(g, old(onPath), v)
      decreases |g.Keys - onPath|, v, 1
    {
      match v
      case Plain => why := Safe;
      case Str(valid) => why := if valid then Safe else BadText;
      case Big => why := BigNumber;
      case Inline(parts) => why := Elements(parts);
      case Hold(at) => why := Container(at);
    }

    method Container(at: nat) returns (why: Reason)
      modifies this
      ensures onPath == old(onPath) && why == WalkValue(g, old(onPath), Hold(at))
      decreases |g.Keys - onPath|, Hold(at), 0
    {
      if at !in g { return Safe; }
      if at in onPath { return Cycle; }
      Fewer(g, onPath, at);
      onPath := onPath + {at};
      why := Entries(g[at]);
      onPath := onPath - {at};
      assert onPath == old(onPath);
    }

    method Elements(vs: seq<Value>) returns (why: Reason)
      modifies this
      ensures onPath == old(onPath) && why == WalkInline(g, old(onPath), vs)
      decreases |g.Keys - onPath|, vs, 0
    {
      var i := 0;
      assert vs[0..] == vs;
      while i < |vs|
        invariant i <= |vs| && onPath == old(onPath)
        invariant WalkInline(g, onPath, vs) == WalkInline(g, onPath, vs[i..])
      {
        why := Visit(vs[i]);
        if why != Safe { return; }
        assert vs[i..][1..] == vs[i + 1..];
        i := i + 1;
      }
      assert vs[i..] == [];
      why := Safe;
    }

    method Entries(parts: seq<Part>) returns (why: Reason)
      modifies this
      ensures onPath == old(onPath) && why == WalkParts(g, old(onPath), parts)
      decreases |g.Keys - onPath|, parts, 0
    {
      var i := 0;
      assert parts[0..] == parts;
      while i < |parts|
        invariant i <= |parts| && onPath == old(onPath)
        invariant WalkParts(g, onPath, parts) == WalkParts(g, onPath, parts[i..])
        decreases |parts| - i
      {
        assert parts[i..][1..] == parts[i + 1..];
        var part := parts[i];
        assert part.Item? ==> (parts decreases to part) && (part decreases to part.v);
        match part {
          case Name(valid) => if !valid { return BadText; }
          case Item(v) =>
            why := Visit(v);
            if why != Safe { return; }
        }
        i := i + 1;
      }
      assert parts[i..] == [];
      why := Safe;
    }
  }

  // ---- what the value holds

  /** A container that stands in the value itself, not inside another container. */
  predicate Shows(v: Value, at: nat)
    decreases v
  {
    match v
    case Hold(k) => k == at
    case Inline(parts) => exists i :: 0 <= i < |parts| && Shows(parts[i], at)
    case _ => false
  }

  predicate ShowsPart(parts: seq<Part>, at: nat) {
    exists i :: 0 <= i < |parts| && parts[i].Item? && Shows(parts[i].v, at)
  }

  /** Nothing in the value itself is emitted wrong. */
  predicate Clean(v: Value)
    decreases v
  {
    match v
    case Str(valid) => valid
    case Big => false
    case Inline(parts) => forall i :: 0 <= i < |parts| ==> Clean(parts[i])
    case _ => true
  }

  predicate CleanParts(parts: seq<Part>) {
    forall i :: 0 <= i < |parts| ==> match parts[i] case Name(valid) => valid case Item(v) => Clean(v)
  }

  /** A way down from some parts: containers, each standing in the one before. */
  predicate Down(g: Heap, parts: seq<Part>, ks: seq<nat>)
    decreases |ks|
  {
    ks == [] || (ks[0] in g && ShowsPart(parts, ks[0]) && Down(g, g[ks[0]], ks[1..]))
  }

  /** A way down that meets no container of `path`, and none twice. */
  predicate Fresh(path: set<nat>, ks: seq<nat>)
    decreases |ks|
  {
    ks == [] || (ks[0] !in path && Fresh(path + {ks[0]}, ks[1..]))
  }

  /** The parts at the end of a way down. */
  function EndOf(g: Heap, parts: seq<Part>, ks: seq<nat>): (end: seq<Part>)
    requires Down(g, parts, ks)
    decreases |ks|
  {
    if ks == [] then parts else EndOf(g, g[ks[0]], ks[1..])
  }

  /** Every way down is fresh, and what stands at its end is clean. */
  ghost predicate Emits(g: Heap, path: set<nat>, parts: seq<Part>) {
    forall ks :: Down(g, parts, ks) ==> Fresh(path, ks) && CleanParts(EndOf(g, parts, ks))
  }

  // ---- the walk is exact

  lemma OneMore(g: Heap, path: set<nat>, parts: seq<Part>, at: nat)
    requires at in g && ShowsPart(parts, at) && Emits(g, path, parts)
    ensures at !in path && Emits(g, path + {at}, g[at])
  {
    forall ks | Down(g, g[at], ks) ensures Fresh(path + {at}, ks) && CleanParts(EndOf(g, g[at], ks)) {
      var down := [at] + ks;
      assert down[1..] == ks;
      assert Down(g, parts, down);
      assert Fresh(path, down);
      assert EndOf(g, parts, down) == EndOf(g, g[at], ks);
    }
    assert Down(g, g[at], []);
    var one := [at];
    assert one[1..] == [] && Down(g, parts, one) && Fresh(path, one);
  }

  lemma EmitsHere(g: Heap, path: set<nat>, parts: seq<Part>)
    ensures Emits(g, path, parts) <==>
            CleanParts(parts) && forall at :: at in g && ShowsPart(parts, at) ==> at !in path && Emits(g, path + {at}, g[at])
  {
    if Emits(g, path, parts) {
      assert Down(g, parts, []) && EndOf(g, parts, []) == parts;
      forall at | at in g && ShowsPart(parts, at) ensures at !in path && Emits(g, path + {at}, g[at]) { OneMore(g, path, parts, at); }
    }
    if CleanParts(parts) && forall at :: at in g && ShowsPart(parts, at) ==> at !in path && Emits(g, path + {at}, g[at]) {
      forall ks | Down(g, parts, ks) ensures Fresh(path, ks) && CleanParts(EndOf(g, parts, ks)) {
        if ks != [] { assert Emits(g, path + {ks[0]}, g[ks[0]]); }
      }
    }
  }

  predicate Inlined(vs: seq<Value>, at: nat) { exists i :: 0 <= i < |vs| && Shows(vs[i], at) }

  /** A value is safe exactly when it is clean, and each container standing in it is off the path
      and safe. */
  lemma {:induction false} ValueExact(g: Heap, path: set<nat>, v: Value)
    ensures WalkValue(g, path, v) == Safe <==>
            Clean(v) && forall at :: at in g && Shows(v, at) ==> at !in path && Emits(g, path + {at}, g[at])
    ensures WalkValue(g, path, v) == Cycle ==> exists at :: at in g && Shows(v, at) && Loops(g, path, at)
    decreases |g.Keys - path|, v, 1
  {
    hide Emits, Loops, Down;
    match v
    case Plain =>
    case Str(_) =>
    case Big =>
    case Inline(parts) => InlineExact(g, path, parts);
    case Hold(at) =>
      if at in g {
        if at in path {
          LoopsAtOnce(g, path, at);
        } else {
          Fewer(g, path, at);
          PartsExact(g, path + {at}, g[at]);
          EmitsHere(g, path + {at}, g[at]);
          if WalkParts(g, path + {at}, g[at]) == Cycle {
            var next :| next in g && ShowsPart(g[at], next) && Loops(g, path + {at}, next);
            LoopsOn(g, path, at, next);
          }
        }
      }
  }

  /** From this container some way down meets the path, or a container twice. */
  ghost predicate Loops(g: Heap, path: set<nat>, at: nat) {
    at in g && (at in path || exists ks :: Down(g, g[at], ks) && !Fresh(path + {at}, ks))
  }

  lemma LoopsAtOnce(g: Heap, path: set<nat>, at: nat)
    requires at in g && at in path
    ensures Loops(g, path, at)
  {
  }

  lemma LoopsOn(g: Heap, path: set<nat>, at: nat, next: nat)
    requires at in g && next in g && ShowsPart(g[at], next) && Loops(g, path + {at}, next)
    ensures Loops(g, path, at)
  {
    if next in path + {at} {
      var ks := [next];
      assert ks[1..] == [] && Down(g, g[next], []);
      assert Down(g, g[at], ks) && !Fresh(path + {at}, ks);
    } else {
      var ks :| Down(g, g[next], ks) && !Fresh(path + {at} + {next}, ks);
      var more := [next] + ks;
      assert more[1..] == ks;
      assert Down(g, g[at], more) && !Fresh(path + {at}, more);
    }
  }

  lemma {:induction false} InlineExact(g: Heap, path: set<nat>, vs: seq<Value>)
    ensures WalkInline(g, path, vs) == Safe <==>
            (forall i :: 0 <= i < |vs| ==> Clean(vs[i])) &&
            forall at :: at in g && Inlined(vs, at) ==> at !in path && Emits(g, path + {at}, g[at])
    ensures WalkInline(g, path, vs) == Cycle ==> exists at :: at in g && Inlined(vs, at) && Loops(g, path, at)
    decreases |g.Keys - path|, vs, 0
  {
    hide Emits, Loops, WalkValue, Clean, Shows;
    if vs != [] {
      ValueExact(g, path, vs[0]);
      InlineExact(g, path, vs[1..]);
      forall at ensures Inlined(vs, at) <==> Shows(vs[0], at) || Inlined(vs[1..], at) { InlinedHead(vs, at); }
      assert forall i :: 0 < i < |vs| ==> vs[1..][i - 1] == vs[i];
      assert (forall i :: 0 <= i < |vs| ==> Clean(vs[i])) <==> Clean(vs[0]) && forall i :: 0 <= i < |vs[1..]| ==> Clean(vs[1..][i]);
    }
  }

  lemma InlinedHead(vs: seq<Value>, at: nat)
    requires vs != []
    ensures Inlined(vs, at) <==> Shows(vs[0], at) || Inlined(vs[1..], at)
  {
    hide Shows;
    if Inlined(vs[1..], at) {
      var i :| 0 <= i < |vs[1..]| && Shows(vs[1..][i], at);
      assert vs[i + 1] == vs[1..][i];
    }
    if Inlined(vs, at) {
      var i :| 0 <= i < |vs| && Shows(vs[i], at);
      if i > 0 { assert vs[1..][i - 1] == vs[i]; }
    }
  }

  lemma ShowsHead(parts: seq<Part>, at: nat)
    requires parts != []
    ensures ShowsPart(parts, at) <==> (parts[0].Item? && Shows(parts[0].v, at)) || ShowsPart(parts[1..], at)
  {
    hide Shows;
    if ShowsPart(parts[1..], at) {
      var i :| 0 <= i < |parts[1..]| && parts[1..][i].Item? && Shows(parts[1..][i].v, at);
      assert parts[i + 1] == parts[1..][i];
    }
    if ShowsPart(parts, at) {
      var i :| 0 <= i < |parts| && parts[i].Item? && Shows(parts[i].v, at);
      if i > 0 { assert parts[1..][i - 1] == parts[i]; }
    }
  }

  lemma CleanHead(parts: seq<Part>)
    requires parts != []
    ensures CleanParts(parts) <==> (match parts[0] case Name(valid) => valid case Item(v) => Clean(v)) && CleanParts(parts[1..])
  {
    hide Clean;
    assert forall i :: 0 < i < |parts| ==> parts[1..][i - 1] == parts[i];
  }

  lemma {:induction false} PartsExact(g: Heap, path: set<nat>, parts: seq<Part>)
    ensures WalkParts(g, path, parts) == Safe <==>
            CleanParts(parts) && forall at :: at in g && ShowsPart(parts, at) ==> at !in path && Emits(g, path + {at}, g[at])
    ensures WalkParts(g, path, parts) == Cycle ==> exists at :: at in g && ShowsPart(parts, at) && Loops(g, path, at)
    decreases |g.Keys - path|, parts, 0
  {
    hide Emits, Loops, WalkValue, Clean, Shows, ShowsPart, CleanParts;
    if parts == [] {
      NoParts();
    } else {
      CleanHead(parts);
      forall at ensures ShowsPart(parts, at) <==> (parts[0].Item? && Shows(parts[0].v, at)) || ShowsPart(parts[1..], at) {
        ShowsHead(parts, at);
      }
      PartsExact(g, path, parts[1..]);
      var part := parts[0];
      assert part.Item? ==> (parts decreases to part) && (part decreases to part.v);
      if part.Item? { ValueExact(g, path, part.v); }
    }
  }

  lemma NoParts()
    ensures CleanParts([]) && forall at :: !ShowsPart([], at)
  {
  }

  // ---- what is reported is there

  /** A part in the value itself that is reported for this reason. */
  predicate Bad(v: Value, why: Reason)
    decreases v
  {
    match v
    case Str(valid) => why == BadText && !valid
    case Big => why == BigNumber
    case Inline(parts) => exists i :: 0 <= i < |parts| && Bad(parts[i], why)
    case _ => false
  }

  predicate BadPart(part: Part, why: Reason) {
    match part case Name(valid) => why == BadText && !valid case Item(v) => Bad(v, why)
  }

  predicate HasBad(parts: seq<Part>, why: Reason) { exists i :: 0 <= i < |parts| && BadPart(parts[i], why) }

  /** At the end of some fresh way down stands a part to be reported. */
  ghost predicate Found(g: Heap, path: set<nat>, parts: seq<Part>, why: Reason) {
    exists ks :: Down(g, parts, ks) && Fresh(path, ks) && HasBad(EndOf(g, parts, ks), why)
  }

  ghost predicate FoundIn(g: Heap, path: set<nat>, at: nat, why: Reason) {
    at in g && at !in path && Found(g, path + {at}, g[at], why)
  }

  lemma FoundHere(g: Heap, path: set<nat>, parts: seq<Part>, why: Reason)
    requires HasBad(parts, why)
    ensures Found(g, path, parts, why)
  {
    assert Down(g, parts, []) && Fresh(path, []) && EndOf(g, parts, []) == parts;
  }

  lemma FoundBelow(g: Heap, path: set<nat>, parts: seq<Part>, at: nat, why: Reason)
    requires ShowsPart(parts, at) && FoundIn(g, path, at, why)
    ensures Found(g, path, parts, why)
  {
    hide ShowsPart, HasBad;
    var ks :| Down(g, g[at], ks) && Fresh(path + {at}, ks) && HasBad(EndOf(g, g[at], ks), why);
    var more := [at] + ks;
    assert more[1..] == ks;
    assert Down(g, parts, more) && Fresh(path, more) && EndOf(g, parts, more) == EndOf(g, g[at], ks);
  }

  lemma FoundLater(g: Heap, path: set<nat>, parts: seq<Part>, why: Reason)
    requires parts != [] && Found(g, path, parts[1..], why)
    ensures Found(g, path, parts, why)
  {
    hide Shows, BadPart;
    var ks :| Down(g, parts[1..], ks) && Fresh(path, ks) && HasBad(EndOf(g, parts[1..], ks), why);
    if ks == [] {
      var i :| 0 <= i < |parts[1..]| && BadPart(parts[1..][i], why);
      assert parts[i + 1] == parts[1..][i];
      FoundHere(g, path, parts, why);
    } else {
      ShowsHead(parts, ks[0]);
      assert Down(g, parts, ks) && EndOf(g, parts, ks) == EndOf(g, parts[1..], ks);
    }
  }

  lemma {:induction false} ValueReports(g: Heap, path: set<nat>, v: Value, why: Reason)
    requires WalkValue(g, path, v) == why && (why == BadText || why == BigNumber)
    ensures Bad(v, why) || exists at :: Shows(v, at) && FoundIn(g, path, at, why)
    decreases |g.Keys - path|, v, 1
  {
    hide Found;
    match v
    case Plain =>
    case Str(_) =>
    case Big =>
    case Inline(vs) => InlineReports(g, path, vs, why);
    case Hold(at) =>
      Fewer(g, path, at);
      PartsReport(g, path + {at}, g[at], why);
      assert FoundIn(g, path, at, why);
  }

  lemma {:induction false} InlineReports(g: Heap, path: set<nat>, vs: seq<Value>, why: Reason)
    requires WalkInline(g, path, vs) == why && (why == BadText || why == BigNumber)
    ensures (exists i :: 0 <= i < |vs| && Bad(vs[i], why)) || exists at :: Inlined(vs, at) && FoundIn(g, path, at, why)
    decreases |g.Keys - path|, vs, 0
  {
    hide FoundIn, WalkValue, Bad, Shows;
    if WalkValue(g, path, vs[0]) != Safe {
      ValueReports(g, path, vs[0], why);
      if !Bad(vs[0], why) {
        var at :| Shows(vs[0], at) && FoundIn(g, path, at, why);
        InlinedHead(vs, at);
      }
    } else {
      InlineReports(g, path, vs[1..], why);
      if i :| 0 <= i < |vs[1..]| && Bad(vs[1..][i], why) {
        assert vs[i + 1] == vs[1..][i];
      } else {
        var at :| Inlined(vs[1..], at) && FoundIn(g, path, at, why);
        InlinedHead(vs, at);
      }
    }
  }

  lemma {:induction false} PartsReport(g: Heap, path: set<nat>, parts: seq<Part>, why: Reason)
    requires WalkParts(g, path, parts) == why && (why == BadText || why == BigNumber)
    ensures Found(g, path, parts, why)
    decreases |g.Keys - path|, parts, 0
  {
    hide Found, FoundIn, WalkValue, Bad, Shows, ShowsPart;
    var part := parts[0];
    assert part.Item? ==> (parts decreases to part) && (part decreases to part.v);
    if part.Name? && !part.valid {
      assert BadPart(parts[0], why);
      FoundHere(g, path, parts, why);
    } else if part.Item? && WalkValue(g, path, part.v) != Safe {
      ValueReports(g, path, part.v, why);
      if Bad(part.v, why) {
        assert BadPart(parts[0], why);
        FoundHere(g, path, parts, why);
      } else {
        var at :| Shows(part.v, at) && FoundIn(g, path, at, why);
        ShowsHead(parts, at);
        FoundBelow(g, path, parts, at, why);
      }
    } else {
      PartsReport(g, path, parts[1..], why);
      FoundLater(g, path, parts, why);
    }
  }

  lemma RootReports(g: Heap, v: Value, why: Reason)
    requires WalkValue(g, {}, v) == why && (why == BadText || why == BigNumber)
    ensures Found(g, {}, [Item(v)], why)
  {
    hide Found, FoundIn, WalkValue, Bad, Shows, ShowsPart;
    var root := [Item(v)];
    ValueReports(g, {}, v, why);
    if Bad(v, why) {
      assert BadPart(root[0], why);
      FoundHere(g, {}, root, why);
    } else {
      var at :| Shows(v, at) && FoundIn(g, {}, at, why);
      ShowsHead(root, at);
      FoundBelow(g, {}, root, at, why);
    }
  }

  // ---- the guard

  /** The guard passes a value exactly when every way down from it ends in clean parts and meets no
      container twice. What it reports is there: a cycle, where some way down meets a container
      twice; bad text or a big number, at the end of a way down that does not. */
  lemma GuardExact(g: Heap, v: Value)
    ensures WalkValue(g, {}, v) == Safe <==> Emits(g, {}, [Item(v)])
    ensures WalkValue(g, {}, v) == Cycle ==> exists ks :: Down(g, [Item(v)], ks) && !Fresh({}, ks)
    ensures WalkValue(g, {}, v) == BadText ==> Found(g, {}, [Item(v)], BadText)
    ensures WalkValue(g, {}, v) == BigNumber ==> Found(g, {}, [Item(v)], BigNumber)
  {
    hide Emits, Loops, WalkValue, Down, Found;
    var root := [Item(v)];
    assert root[1..] == [];
    NoParts();
    CleanHead(root);
    forall at ensures ShowsPart(root, at) <==> Shows(v, at) { ShowsHead(root, at); }
    ValueExact(g, {}, v);
    EmitsHere(g, {}, root);
    var why := WalkValue(g, {}, v);
    if why == BadText || why == BigNumber { RootReports(g, v, why); }
    if why == Cycle {
      var at :| at in g && Shows(v, at) && Loops(g, {}, at);
      LoopsFrom(g, root, at);
    }
  }

  lemma LoopsFrom(g: Heap, parts: seq<Part>, at: nat)
    requires at in g && ShowsPart(parts, at) && Loops(g, {}, at)
    ensures exists ks :: Down(g, parts, ks) && !Fresh({}, ks)
  {
    var ks :| Down(g, g[at], ks) && !Fresh({} + {at}, ks);
    var more := [at] + ks;
    assert more[1..] == ks;
    assert Down(g, parts, more) && !Fresh({}, more);
  }

  /** A way down that is not fresh does hold a container twice. */
  lemma {:induction false} FreshMeans(path: set<nat>, ks: seq<nat>)
    ensures Fresh(path, ks) <==>
            (forall i :: 0 <= i < |ks| ==> ks[i] !in path) && forall i, j :: 0 <= i < j < |ks| ==> ks[i] != ks[j]
    decreases |ks|
  {
    if ks != [] {
      FreshMeans(path + {ks[0]}, ks[1..]);
      assert forall i :: 0 < i < |ks| ==> ks[1..][i - 1] == ks[i];
      assert forall i, j :: 0 < i < j < |ks| ==> ks[1..][i - 1] == ks[i] && ks[1..][j - 1] == ks[j];
    }
  }
}
