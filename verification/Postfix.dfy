/** Postfix repetition: reading a run of operators, and lowering it onto the IR. */
module Postfix {
  import opened Text
  import opened Ir

  predicate IsSpace(c: char) { c == ' ' || c == '\t' || c == '\r' || c == '\n' }

  datatype Op = StarOp | PlusOp | OptOp | RepOp(min: nat, max: Bound)

  function Spaces(t: string): (n: nat)
    ensures n <= |t|
  {
    RunLength(t, IsSpace)
  }

  function Digits(t: string): (n: nat)
    ensures n <= |t| && AllDigits(t[..n])
  {
    RunLength(t, IsDigit)
  }

  /** What a brace's text from the upper bound on says: `}` alone keeps the exact count. */
  function ReadUpper(t: string, min: nat): (r: Option<(Bound, nat)>)
    ensures r.Some? ==> 1 <= r.value.1 <= |t|
  {
    if t == "" then None
    else if t[0] == '}' then Some((Finite(min), 1))
    else if t[0] != ',' then None
    else
      var a := 1 + Spaces(t[1..]);
      var b := a + Digits(t[a..]);
      var c := b + Spaces(t[b..]);
      if c == |t| || t[c] != '}' then None
      else Some((if a == b then Infinity else Finite(ParseDec(t[a..b])), c + 1))
  }

  /** One postfix operator at the start of `t`, and its extent. */
  function ReadOp(t: string): (r: Option<(Op, nat)>)
    ensures r.Some? ==> 1 <= r.value.1 <= |t|
  {
    if t == "" then None
    else if t[0] == '*' then Some((StarOp, 1))
    else if t[0] == '+' then Some((PlusOp, 1))
    else if t[0] == '?' then Some((OptOp, 1))
    else if t[0] != '{' then None
    else
      var a := 1 + Spaces(t[1..]);
      var b := a + Digits(t[a..]);
      var c := b + Spaces(t[b..]);
      if a == b then None
      else match ReadUpper(t[c..], ParseDec(t[a..b]))
        case None => None
        case Some((max, k)) => Some((RepOp(ParseDec(t[a..b]), max), c + k))
  }

  /** The extent of the run of operators `t` starts with; spaces belong to it only between two. */
  function RunExtent(t: string): (n: nat)
    ensures n <= |t|
    ensures ReadOp(t).None? <==> n == 0
    decreases |t|
  {
    match ReadOp(t)
    case None => 0
    case Some((_, k)) =>
      var gap := Spaces(t[k..]);
      var more := RunExtent(t[k + gap..]);
      if more == 0 then k else k + gap + more
  }

  /** The operators of a run, as a search that skips what is no operator finds them. */
  function Ops(run: string): (ops: seq<Op>)
    decreases |run|
  {
    if run == "" then []
    else match ReadOp(run)
      case None => Ops(run[1..])
      case Some((op, k)) => [op] + Ops(run[k..])
  }

  // ---- lowering

  /** A repetition count in the IR's own shapes; `None` for an upper bound below the lower. */
  function Repeat(inner: Element, min: nat, max: Bound): (r: Option<Element>)
    ensures r.None? <==> max.Finite? && max.n < min
  {
    if Below(max, min) then None
    else if min == 1 && max == Finite(1) then Some(inner)
    else if min == 0 && max == Infinity then Some(Star(inner))
    else if min == 1 && max == Infinity then Some(Plus(inner))
    else if min == 0 && max == Finite(1) then Some(Opt(inner))
    else Some(Rep(min, max, inner))
  }

  function ApplyOp(item: Element, op: Op): (r: Option<Element>) {
    match op
    case StarOp => Some(Star(item))
    case PlusOp => Some(Plus(item))
    case OptOp => Some(Opt(item))
    case RepOp(min, max) => Repeat(item, min, max)
  }

  /** Whether an operator adds a level: `{1}` hands its argument back. */
  predicate Wraps(op: Op) { op != RepOp(1, Finite(1)) }

  datatype PostfixError = BadCount | TooDeep

  datatype Lowered = Lowered(item: Element, depth: nat)

  /** Operators applied left to right. The depth grows by each wrapper; where a limit is given,
      the wrapper that would pass it is refused, after its count has been checked. */
  function ApplyOps(item: Element, ops: seq<Op>, depth: nat, limit: Option<nat>): (r: Result<Lowered, PostfixError>)
    decreases |ops|
  {
    if ops == [] then Ok(Lowered(item, depth))
    else match ApplyOp(item, ops[0])
      case None => Err(BadCount)
      case Some(next) =>
        var d := if Wraps(ops[0]) then depth + 1 else depth;
        if Wraps(ops[0]) && limit.Some? && limit.value < d then Err(TooDeep)
        else ApplyOps(next, ops[1..], d, limit)
  }

  function ApplyPostfix(item: Element, run: string, depth: nat, limit: Option<nat>): (r: Result<Lowered, PostfixError>) {
    ApplyOps(item, Ops(run), depth, limit)
  }

  /** The lowering as it runs: a search position in the run, the element, and the depth so far. */
  method ApplyPostfixLoop(item: Element, run: string, depth: nat, limit: Option<nat>)
    returns (r: Result<Lowered, PostfixError>)
    ensures r == ApplyPostfix(item, run, depth, limit)
  {
    hide ReadOp, ApplyOp;
    var out, d, i := item, depth, 0;
    assert run[0..] == run;
    while i < |run|
      invariant i <= |run|
      invariant ApplyPostfix(item, run, depth, limit) == ApplyOps(out, Ops(run[i..]), d, limit)
      decreases |run| - i
    {
      var found := ReadOp(run[i..]);
      match found
      case None =>
        assert run[i..][1..] == run[i + 1..];
        i := i + 1;
      case Some((op, k)) =>
        assert run[i..][k..] == run[i + k..];
        assert ([op] + Ops(run[i + k..]))[1..] == Ops(run[i + k..]);
        var next := ApplyOp(out, op);
        if next.None? { return Err(BadCount); }
        if Wraps(op) {
          d := d + 1;
          if limit.Some? && limit.value < d { return Err(TooDeep); }
        }
        out, i := next.value, i + k;
    }
    assert Ops(run[i..]) == [];
    r := Ok(Lowered(out, d));
  }

  // ---- spelling

  function UpperText(min: nat, max: Bound): (s: string)
    ensures s != "" && (s[0] == '}' || s[0] == ',')
  {
    match max
    case Infinity => ",}"
    case Finite(n) => if n == min then "}" else "," + Dec(n) + "}"
  }

  /** An operator as the renderer writes it. */
  function OpText(op: Op): (s: string)
    ensures s != "" && s[0] in "*+?{"
  {
    match op
    case StarOp => "*"
    case PlusOp => "+"
    case OptOp => "?"
    case RepOp(min, max) => "{" + (Dec(min) + UpperText(min, max))
  }

  function OpsText(ops: seq<Op>): (s: string)
    ensures ops == [] <==> s == ""
    ensures s != "" ==> s[0] in "*+?{"
  {
    if ops == [] then "" else OpText(ops[0]) + OpsText(ops[1..])
  }

  lemma {:induction false} OpsTextAppend(ops: seq<Op>, op: Op)
    ensures OpsText(ops + [op]) == OpsText(ops) + OpText(op)
  {
    var all := ops + [op];
    if ops == [] {
      assert all[1..] == [];
    } else {
      assert all[1..] == ops[1..] + [op];
      OpsTextAppend(ops[1..], op);
      Assoc(OpText(ops[0]), OpsText(ops[1..]), OpText(op));
    }
  }

  /** No operator lies ahead, spaces skipped: where a run ends. */
  predicate NoOpAhead(t: string) { ReadOp(t[Spaces(t)..]).None? }

  lemma SpacesNone(t: string)
    requires t == "" || !IsSpace(t[0])
    ensures Spaces(t) == 0
  {
  }

  lemma DigitsIs(n: nat, t: string)
    requires t != "" && !IsDigit(t[0])
    ensures Digits(Dec(n) + t) == |Dec(n)| && (Dec(n) + t)[..|Dec(n)|] == Dec(n)
    ensures Spaces(Dec(n) + t) == 0
  {
    RunLengthIs(Dec(n), t, IsDigit);
    assert IsDigit(Dec(n)[0]);
  }

  lemma ReadFiniteAt(t: string, n: nat, min: nat)
    requires 0 < n < |t| - 1 && t[0] == ',' && t[1 + n] == '}'
    requires Spaces(t[1..]) == 0 && Digits(t[1..]) == n && Spaces(t[1 + n..]) == 0
    ensures ReadUpper(t, min) == Some((Finite(ParseDec(t[1..1 + n])), n + 2))
  {
    hide ParseDec, Digits, Spaces;
    assert t[1..][..n] == t[1..1 + n];
  }

  lemma ReadFinite(n: nat, min: nat, t: string)
    ensures ReadUpper("," + (Dec(n) + ("}" + t)), min) == Some((Finite(n), |Dec(n)| + 2))
  {
    hide Dec, ParseDec, Digits, Spaces, ReadUpper;
    DigitsIs(n, "}" + t);
    DecReads(n);
    Slices(",", Dec(n), "}" + t);
    SpacesNone("}" + t);
    ReadFiniteAt("," + (Dec(n) + ("}" + t)), |Dec(n)|, min);
  }

  lemma ReadUnbounded(min: nat, t: string)
    ensures ReadUpper(",}" + t, min) == Some((Infinity, 2))
  {
    var all := ",}" + t;
    assert all[1..] == "}" + t;
    SpacesNone(all[1..]);
    assert Digits(all[1..]) == 0;
  }

  lemma ReadUpperText(min: nat, max: Bound, t: string)
    ensures ReadUpper(UpperText(min, max) + t, min) == Some((max, |UpperText(min, max)|))
  {
    hide ReadUpper;
    if max == Infinity {
      ReadUnbounded(min, t);
    } else if max.n == min {
      ReadClose(min, t);
    } else {
      assert UpperText(min, max) + t == "," + (Dec(max.n) + ("}" + t));
      ReadFinite(max.n, min, t);
    }
  }

  lemma ReadClose(min: nat, t: string)
    ensures ReadUpper("}" + t, min) == Some((Finite(min), 1))
  {
  }

  lemma ReadRep(t: string, n: nat, max: Bound, k: nat)
    requires 0 < n < |t| - 1 && t[0] == '{'
    requires Spaces(t[1..]) == 0 && Digits(t[1..]) == n && Spaces(t[1 + n..]) == 0
    requires ReadUpper(t[1 + n..], ParseDec(t[1..1 + n])) == Some((max, k))
    ensures ReadOp(t) == Some((RepOp(ParseDec(t[1..1 + n]), max), 1 + n + k))
  {
    hide ReadUpper, ParseDec, Digits, Spaces;
    assert t[1..][..n] == t[1..1 + n];
  }

  lemma ReadRepOp(min: nat, max: Bound, t: string)
    ensures ReadOp("{" + (Dec(min) + (UpperText(min, max) + t))) ==
            Some((RepOp(min, max), 1 + |Dec(min)| + |UpperText(min, max)|))
  {
    hide ReadUpper, Dec, ParseDec, Digits, Spaces, ReadOp, UpperText, AllDigits;
    var u := UpperText(min, max);
    DigitsIs(min, u + t);
    DecReads(min);
    SpacesNone(u + t);
    ReadUpperText(min, max, t);
    Slices("{", Dec(min), u + t);
    ReadRep("{" + (Dec(min) + (u + t)), |Dec(min)|, max, |u|);
  }

  lemma ReadOpText(op: Op, t: string)
    ensures ReadOp(OpText(op) + t) == Some((op, |OpText(op)|))
  {
    hide Dec, UpperText, ReadOp;
    if op.RepOp? {
      ReadRepOp(op.min, op.max, t);
      assert OpText(op) + t == "{" + (Dec(op.min) + (UpperText(op.min, op.max) + t));
    } else {
      ReadOneMark(op, t);
    }
  }

  lemma ReadOneMark(op: Op, t: string)
    requires !op.RepOp?
    ensures ReadOp(OpText(op) + t) == Some((op, 1))
  {
  }

  lemma ExtentOf(t: string, op: Op, k: nat, gap: nat)
    requires ReadOp(t) == Some((op, k)) && k <= |t| && gap == Spaces(t[k..])
    ensures var more := RunExtent(t[k + gap..]); RunExtent(t) == if more == 0 then k else k + gap + more
  {
    hide ReadOp, Spaces;
  }

  lemma {:induction false} RunOfText(ops: seq<Op>, t: string)
    requires ops != [] && NoOpAhead(t)
    ensures RunExtent(OpsText(ops) + t) == |OpsText(ops)|
  {
    hide ReadOp, OpText, Spaces, RunExtent;
    var s, rest := OpText(ops[0]), OpsText(ops[1..]) + t;
    var all := s + rest;
    Assoc(s, OpsText(ops[1..]), t);
    ReadOpText(ops[0], rest);
    assert all[|s|..] == rest;
    var gap := Spaces(rest);
    assert all[|s| + gap..] == rest[gap..];
    ExtentOf(all, ops[0], |s|, gap);
    if ops[1..] == [] {
      assert OpsText(ops[1..]) == "";
      assert rest == t;
    } else {
      SpacesNone(rest);
      assert rest[0..] == rest;
      RunOfText(ops[1..], t);
    }
  }

  /** A spelled run reads back as its operators. */
  lemma {:induction false} OpsOfText(ops: seq<Op>)
    ensures Ops(OpsText(ops)) == ops
  {
    hide ReadOp, OpText;
    if ops != [] {
      var s, rest := OpText(ops[0]), OpsText(ops[1..]);
      ReadOpText(ops[0], rest);
      assert (s + rest)[|s|..] == rest;
      OpsOfText(ops[1..]);
    }
  }

  // ---- what an operator's text denotes, spaces and all

  predicate AllSpaces(s: string) { forall i :: 0 <= i < |s| ==> s[i] in [' ', '\t', '\r', '\n'] }

  /** `s` is a comma, spaces up to `a`, digits up to `b`, spaces and a closing brace. */
  predicate Bounded(s: string, a: nat, b: nat, max: Bound) {
    1 <= a <= b < |s| && s[0] == ',' && s[|s| - 1] == '}' &&
    AllSpaces(s[1..a]) && AllDigits(s[a..b]) && AllSpaces(s[b..|s| - 1]) &&
    max == if a == b then Infinity else Finite(ParseDec(s[a..b]))
  }

  /** What stands for an upper bound: nothing for the lower one, a comma for none, or a number. */
  ghost predicate BoundDenotes(s: string, min: nat, max: Bound) {
    (s == "}" && max == Finite(min)) || exists a, b :: Bounded(s, a, b, max)
  }

  /** `s` is a brace, spaces up to `a`, digits up to `b`, spaces up to `c`, and an upper bound. */
  ghost predicate Counted(s: string, a: nat, b: nat, c: nat, op: Op) {
    1 <= a < b <= c < |s| && s[0] == '{' && AllSpaces(s[1..a]) && AllDigits(s[a..b]) && AllSpaces(s[b..c]) &&
    op.RepOp? && op.min == ParseDec(s[a..b]) && BoundDenotes(s[c..], op.min, op.max)
  }

  /** `{m}` is exactly m, `{m,}` is m or more, `{m,n}` is from m to n. */
  ghost predicate OpDenotes(s: string, op: Op) {
    || (s == "*" && op == StarOp)
    || (s == "+" && op == PlusOp)
    || (s == "?" && op == OptOp)
    || (exists a, b, c :: Counted(s, a, b, c, op))
  }

  predicate NoSpaceAhead(t: string) { t == "" || t[0] !in [' ', '\t', '\r', '\n'] }

  lemma SpacesAt(s: string, i: nat, j: nat)
    requires i <= j <= |s|
    ensures Spaces(s[i..]) == j - i <==> AllSpaces(s[i..j]) && NoSpaceAhead(s[j..])
  {
    assert s[i..] == s[i..j] + s[j..];
    if AllSpaces(s[i..j]) && NoSpaceAhead(s[j..]) { RunLengthIs(s[i..j], s[j..], IsSpace); }
    if Spaces(s[i..]) == j - i { assert forall k :: 0 <= k < j - i ==> s[i..j][k] == s[i..][k]; }
  }

  lemma DigitsAt(s: string, i: nat, j: nat)
    requires i <= j <= |s|
    ensures Digits(s[i..]) == j - i <==> AllDigits(s[i..j]) && (j < |s| ==> !IsDigit(s[j]))
  {
    assert s[i..] == s[i..j] + s[j..];
    if AllDigits(s[i..j]) && (j < |s| ==> !IsDigit(s[j])) { RunLengthIs(s[i..j], s[j..], IsDigit); }
    if Digits(s[i..]) == j - i { assert forall k :: 0 <= k < j - i ==> s[i..j][k] == s[i..][k]; }
  }

  /** The reader of an upper bound, by where its parts end. */
  lemma UpperAt(s: string, a: nat, b: nat, c: nat, min: nat)
    requires s != "" && s[0] == ',' && a == 1 + Spaces(s[1..]) && b == a + Digits(s[a..]) && c == b + Spaces(s[b..])
    ensures AllDigits(s[a..b])
    ensures c == |s| || s[c] != '}' ==> ReadUpper(s, min).None?
    ensures c < |s| && s[c] == '}' ==>
              ReadUpper(s, min) == Some((if a == b then Infinity else Finite(ParseDec(s[a..b])), c + 1))
  {
    hide Spaces, Digits, ParseDec;
    DigitsAt(s, a, b);
  }

  lemma UpperFirst(s: string, min: nat)
    ensures s != "" && s[0] == '}' ==> ReadUpper(s, min) == Some((Finite(min), 1))
    ensures s == "" || (s[0] != '}' && s[0] != ',') ==> ReadUpper(s, min).None?
  {
  }

  /** An upper bound is read exactly where one stands. */
  lemma UpperExact(s: string, min: nat, max: Bound, k: nat)
    ensures ReadUpper(s, min) == Some((max, k)) <==> k <= |s| && BoundDenotes(s[..k], min, max)
  {
    hide Spaces, Digits, ParseDec, ReadUpper, AllSpaces, Bounded;
    UpperFirst(s, min);
    if s != "" && s[0] == ',' {
      if ReadUpper(s, min) == Some((max, k)) { UpperTaken(s, min, max, k); }
      if k <= |s| && BoundDenotes(s[..k], min, max) {
        assert k > 0 ==> s[..k][0] == ',';
        var a, b :| Bounded(s[..k], a, b, max);
        UpperReads(s, min, max, k, a, b);
      }
    } else {
      if k <= |s| && BoundDenotes(s[..k], min, max) { BoundFirst(s[..k], min, max); }
      if s != "" { assert s[..1] == [s[0]]; }
    }
  }

  lemma BoundFirst(s: string, min: nat, max: Bound)
    requires BoundDenotes(s, min, max)
    ensures s != "" && (s[0] == ',' || (s == "}" && max == Finite(min)))
  {
    hide ParseDec, AllSpaces, AllDigits;
  }

  lemma UpperTaken(s: string, min: nat, max: Bound, k: nat)
    requires s != "" && s[0] == ',' && ReadUpper(s, min) == Some((max, k))
    ensures k <= |s| && BoundDenotes(s[..k], min, max)
  {
    hide Spaces, Digits, ParseDec, ReadUpper, AllSpaces;
    var a := 1 + Spaces(s[1..]);
    var b := a + Digits(s[a..]);
    var c := b + Spaces(s[b..]);
    UpperAt(s, a, b, c, min);
    SpacesAt(s, 1, a);
    DigitsAt(s, a, b);
    SpacesAt(s, b, c);
    var u := s[..k];
    assert u[1..a] == s[1..a] && u[a..b] == s[a..b] && u[b..|u| - 1] == s[b..c];
    assert Bounded(u, a, b, max);
  }

  lemma UpperReads(s: string, min: nat, max: Bound, k: nat, a: nat, b: nat)
    requires k <= |s| && Bounded(s[..k], a, b, max)
    ensures ReadUpper(s, min) == Some((max, k))
  {
    hide Spaces, Digits, ParseDec, ReadUpper, AllSpaces;
    var u, c := s[..k], k - 1;
    assert u[1..a] == s[1..a] && u[a..b] == s[a..b] && u[b..|u| - 1] == s[b..c] && u[|u| - 1] == s[c];
    ClosingBrace(s, c);
    if a == b {
      SpacesJoin(s, 1, a, c);
      SpacesAt(s, 1, c);
      DigitsAt(s, c, c);
      SpacesAt(s, c, c);
      UpperAt(s, c, c, c, min);
    } else {
      DigitFirst(s, a, b);
      SpacesAt(s, 1, a);
      NoDigitAt(s, b, c);
      DigitsAt(s, a, b);
      SpacesAt(s, b, c);
      UpperAt(s, a, b, c, min);
    }
  }

  lemma ClosingBrace(s: string, c: nat)
    requires c < |s| && (s[c] == '}' || s[c] == ',')
    ensures NoSpaceAhead(s[c..]) && !IsDigit(s[c]) && s[c..c] == "" && AllDigits("") && AllSpaces("")
  {
  }

  lemma SpacesJoin(s: string, i: nat, j: nat, k: nat)
    requires i <= j <= k <= |s| && AllSpaces(s[i..j]) && AllSpaces(s[j..k])
    ensures AllSpaces(s[i..k])
  {
    assert s[i..k] == s[i..j] + s[j..k];
  }

  lemma DigitFirst(s: string, a: nat, b: nat)
    requires a < b <= |s| && AllDigits(s[a..b])
    ensures NoSpaceAhead(s[a..])
  {
    assert s[a..b][0] == s[a] && IsDigit(s[a..b][0]);
  }

  lemma NoDigitAt(s: string, b: nat, c: nat)
    requires b <= c < |s| && AllSpaces(s[b..c]) && !IsDigit(s[c])
    ensures !IsDigit(s[b])
  {
    if b < c { assert s[b..c][0] == s[b]; }
  }

  /** The reader of a braced count, by where its parts end. */
  lemma BraceAt(s: string, a: nat, b: nat, c: nat)
    requires s != "" && s[0] == '{' && a == 1 + Spaces(s[1..]) && b == a + Digits(s[a..]) && c == b + Spaces(s[b..])
    ensures AllDigits(s[a..b])
    ensures ReadOp(s) ==
            if a == b then None
            else match ReadUpper(s[c..], ParseDec(s[a..b]))
              case None => None
              case Some((max, k)) => Some((RepOp(ParseDec(s[a..b]), max), c + k))
  {
    hide Spaces, Digits, ParseDec, ReadUpper;
    DigitsAt(s, a, b);
  }

  lemma BraceTaken(s: string, op: Op, k: nat)
    requires s != "" && s[0] == '{' && ReadOp(s) == Some((op, k))
    ensures k <= |s| && exists a, b, c :: Counted(s[..k], a, b, c, op)
  {
    hide Spaces, Digits, ParseDec, ReadUpper, AllSpaces, ReadOp, BoundDenotes;
    var a := 1 + Spaces(s[1..]);
    var b := a + Digits(s[a..]);
    var c := b + Spaces(s[b..]);
    BraceAt(s, a, b, c);
    SpacesAt(s, 1, a);
    SpacesAt(s, b, c);
    UpperExact(s[c..], op.min, op.max, k - c);
    var u := s[..k];
    assert s[c..][..k - c] == u[c..];
    assert u[1..a] == s[1..a] && u[a..b] == s[a..b] && u[b..c] == s[b..c];
    BoundFirst(u[c..], op.min, op.max);
    assert Counted(u, a, b, c, op);
  }

  lemma BraceReads(s: string, op: Op, k: nat, a: nat, b: nat, c: nat)
    requires k <= |s| && Counted(s[..k], a, b, c, op)
    ensures ReadOp(s) == Some((op, k))
  {
    hide Spaces, Digits, ParseDec, ReadUpper, AllSpaces, ReadOp, BoundDenotes;
    var u := s[..k];
    assert u[1..a] == s[1..a] && u[a..b] == s[a..b] && u[b..c] == s[b..c];
    BoundFirst(u[c..], op.min, op.max);
    assert u[c..][0] == s[c];
    ClosingBrace(s, c);
    DigitFirst(s, a, b);
    SpacesAt(s, 1, a);
    NoDigitAt(s, b, c);
    DigitsAt(s, a, b);
    SpacesAt(s, b, c);
    assert s[c..][..k - c] == u[c..];
    UpperExact(s[c..], op.min, op.max, k - c);
    BraceAt(s, a, b, c);
  }

  /** An operator is read exactly where its text stands, with this meaning and this extent. */
  lemma ReadOpExact(t: string, op: Op, k: nat)
    ensures ReadOp(t) == Some((op, k)) <==> k <= |t| && OpDenotes(t[..k], op)
  {
    hide ReadOp, Counted;
    if t != "" && t[0] == '{' {
      if ReadOp(t) == Some((op, k)) { BraceTaken(t, op, k); }
      if k <= |t| && OpDenotes(t[..k], op) {
        assert k > 0 ==> t[..k][0] == '{';
        var a, b, c :| Counted(t[..k], a, b, c, op);
        BraceReads(t, op, k, a, b, c);
      }
    } else {
      MarkReads(t);
      if k <= |t| && OpDenotes(t[..k], op) { OpFirst(t[..k], op); }
      if t != "" { assert t[..1] == [t[0]]; }
    }
  }

  lemma OpFirst(s: string, op: Op)
    requires OpDenotes(s, op)
    ensures s != "" && s[0] in "*+?{"
    ensures s[0] != '{' ==> (s == "*" && op == StarOp) || (s == "+" && op == PlusOp) || (s == "?" && op == OptOp)
  {
    hide ParseDec, AllSpaces, AllDigits, BoundDenotes;
  }

  lemma MarkReads(t: string)
    requires t == "" || t[0] != '{'
    ensures ReadOp(t) ==
            if t != "" && t[0] == '*' then Some((StarOp, 1))
            else if t != "" && t[0] == '+' then Some((PlusOp, 1))
            else if t != "" && t[0] == '?' then Some((OptOp, 1))
            else None
  {
  }

  // ---- what a run of operators denotes

  /** Operators one after another, with spaces only between two. */
  ghost predicate RunDenotes(s: string, ops: seq<Op>)
    decreases |ops|, 0
  {
    ops != [] && exists k: nat :: k <= |s| && OpDenotes(s[..k], ops[0]) && RunGoesOn(s[k..], ops[1..])
  }

  ghost predicate RunGoesOn(s: string, ops: seq<Op>)
    decreases |ops|, 1
  {
    if ops == [] then s == ""
    else exists g: nat :: g <= |s| && AllSpaces(s[..g]) && RunDenotes(s[g..], ops)
  }

  lemma RunFirst(s: string, ops: seq<Op>)
    requires RunDenotes(s, ops)
    ensures s != "" && s[0] in "*+?{"
  {
    hide OpDenotes, RunGoesOn;
    var k: nat :| k <= |s| && OpDenotes(s[..k], ops[0]) && RunGoesOn(s[k..], ops[1..]);
    OpFirst(s[..k], ops[0]);
    assert s[..k][0] == s[0];
  }

  lemma {:induction false} SkipSpaces(s: string, g: nat)
    requires g <= |s| && AllSpaces(s[..g])
    ensures Ops(s) == Ops(s[g..])
    decreases g
  {
    if g == 0 {
      assert s[0..] == s;
    } else {
      assert s[..g][0] == s[0];
      MarkReads(s);
      assert s[1..][..g - 1] == s[..g][1..];
      SkipSpaces(s[1..], g - 1);
      assert s[1..][g - 1..] == s[g..];
    }
  }

  /** The operators found in a run are the ones it spells, in order. */
  lemma {:induction false} RunMeans(s: string, ops: seq<Op>)
    requires RunDenotes(s, ops)
    ensures Ops(s) == ops
    decreases |ops|
  {
    hide ReadOp, OpDenotes, AllSpaces;
    var k: nat :| k <= |s| && OpDenotes(s[..k], ops[0]) && RunGoesOn(s[k..], ops[1..]);
    ReadOpExact(s, ops[0], k);
    if ops[1..] != [] {
      var rest := s[k..];
      var g: nat :| g <= |rest| && AllSpaces(rest[..g]) && RunDenotes(rest[g..], ops[1..]);
      SkipSpaces(rest, g);
      RunMeans(rest[g..], ops[1..]);
    }
    assert ops == [ops[0]] + ops[1..];
  }

  lemma Inner(t: string, m: nat, k: nat, g: nat)
    requires k + g <= m <= |t|
    ensures t[..m][k..][..g] == t[k..k + g] && t[..m][k..][g..] == t[k + g..][..m - k - g]
  {
  }

  lemma ReadOpBound(t: string)
    requires ReadOp(t).Some?
    ensures 1 <= ReadOp(t).value.1 <= |t|
  {
    hide ReadOp;
  }

  /** The run matcher takes a run. */
  lemma {:induction false} RunTaken(t: string) returns (ops: seq<Op>)
    requires RunExtent(t) > 0
    ensures RunDenotes(t[..RunExtent(t)], ops)
    decreases |t|
  {
    hide ReadOp, OpDenotes, AllSpaces, RunExtent, Spaces;
    assert ReadOp(t).Some?;
    var (op, k) := ReadOp(t).value;
    var n := RunExtent(t);
    ReadOpExact(t, op, k);
    ReadOpBound(t);
    var gap := Spaces(t[k..]);
    ExtentOf(t, op, k, gap);
    assert t[..n][..k] == t[..k];
    if RunExtent(t[k + gap..]) == 0 {
      ops := [op];
      assert t[..n][k..] == "" && ops[1..] == [];
    } else {
      var more := RunTaken(t[k + gap..]);
      ops := [op] + more;
      assert ops[1..] == more;
      SpacesAt(t, k, k + gap);
      Inner(t, n, k, gap);
      assert RunGoesOn(t[..n][k..], more) by { RunFirst(t[k + gap..][..n - k - gap], more); }
    }
    assert OpDenotes(t[..n][..k], ops[0]) && RunGoesOn(t[..n][k..], ops[1..]);
  }

  /** And the longest one. */
  lemma {:induction false} RunLongest(t: string, m: nat, ops: seq<Op>)
    requires m <= |t| && RunDenotes(t[..m], ops)
    ensures 0 < m <= RunExtent(t)
    decreases |ops|
  {
    hide ReadOp, OpDenotes, AllSpaces, RunExtent, Spaces, NoSpaceAhead;
    var s := t[..m];
    RunFirst(s, ops);
    var k: nat :| k <= |s| && OpDenotes(s[..k], ops[0]) && RunGoesOn(s[k..], ops[1..]);
    assert s[..k] == t[..k];
    ReadOpExact(t, ops[0], k);
    ExtentOf(t, ops[0], k, Spaces(t[k..]));
    if ops[1..] != [] {
      var g: nat :| g <= |s[k..]| && AllSpaces(s[k..][..g]) && RunDenotes(s[k..][g..], ops[1..]);
      Inner(t, m, k, g);
      RunLater(t, m, k, g, ops[1..]);
      RunLongest(t[k + g..], m - k - g, ops[1..]);
    }
  }

  lemma RunLater(t: string, m: nat, k: nat, g: nat, ops: seq<Op>)
    requires k + g <= m <= |t| && AllSpaces(t[k..k + g]) && RunDenotes(t[k + g..][..m - k - g], ops)
    ensures Spaces(t[k..]) == g
  {
    hide RunDenotes, Spaces, AllSpaces;
    RunFirst(t[k + g..][..m - k - g], ops);
    MarkAhead(t[k + g..], t[k + g..][..m - k - g]);
    SpacesAt(t, k, k + g);
  }

  lemma MarkAhead(t: string, s: string)
    requires s != "" && s <= t && s[0] in "*+?{"
    ensures NoSpaceAhead(t)
  {
  }
}
