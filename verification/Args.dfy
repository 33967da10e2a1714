/** The command's argument parser: a work queue onto which groups of short options are pushed back,
    one option a token. */
module Args {
  import opened Text

  datatype Switch = Stdin | Json | Ast | StripFinalNewline | Quiet | Help | Version

  /** An option by its names; `sets` is `None` for the one that takes a value, `--text`. */
  datatype Spec = Spec(long: string, short: Option<char>, sets: Option<Switch>)

  const OPTIONS: seq<Spec> := [
    Spec("text", Some('t'), None), Spec("stdin", None, Some(Stdin)), Spec("json", None, Some(Json)),
    Spec("ast", None, Some(Ast)), Spec("strip-final-newline", None, Some(StripFinalNewline)),
    Spec("quiet", Some('q'), Some(Quiet)), Spec("help", Some('h'), Some(Help)), Spec("version", Some('v'), Some(Version))]

  function ByLong(specs: seq<Spec>, name: string): (r: Option<Spec>) {
    if specs == [] then None else if specs[0].long == name then Some(specs[0]) else ByLong(specs[1..], name)
  }

  function ByShort(specs: seq<Spec>, c: char): (r: Option<Spec>) {
    if specs == [] then None else if specs[0].short == Some(c) then Some(specs[0]) else ByShort(specs[1..], c)
  }

  predicate TakesValue(c: char) { ByShort(OPTIONS, c).Some? && ByShort(OPTIONS, c).value.sets.None? }

  datatype UsageError =
    | Unknown(raw: string)
    | NoValueAllowed(option: string)
    | ValueMissing(option: string)
    | ValueAmbiguous(raw: string, option: string)

  /** What has been read: the values of `--text`, the switches, and the positionals. */
  datatype Parsed = Parsed(text: seq<string>, on: set<Switch>, positionals: seq<string>)

  const NOTHING: Parsed := Parsed([], {}, [])

  type Outcome = Result<Parsed, UsageError>

  // ---- tokens

  predicate IsLong(arg: string) { |arg| > 2 && arg[..2] == "--" }

  predicate IsShort(arg: string) { |arg| > 1 && arg[0] == '-' && arg[1] != '-' }

  function Tail(arg: string): (t: string) { if arg == "" then "" else arg[1..] }

  /** More than one short option in a token, the first of which takes no value. */
  predicate IsGroup(arg: string) { IsShort(arg) && |arg| > 2 && !TakesValue(arg[1]) }

  /** The tokens of a group: a short option each, up to one that takes a value, to which the rest
      of the token belongs. */
  function Split(body: string): (tokens: seq<string>) {
    if body == "" then []
    else if TakesValue(body[0]) && |body| > 1 then ["-" + body]
    else ["-" + [body[0]]] + Split(body[1..])
  }

  // ---- termination: a group weighs more than what it is split into

  function Weight(arg: string): (n: nat) { if IsGroup(arg) then |arg| else 1 }

  function Weights(args: seq<string>): (n: nat) { if args == [] then 0 else Weight(args[0]) + Weights(args[1..]) }

  lemma {:induction false} WeightsConcat(a: seq<string>, b: seq<string>)
    ensures Weights(a + b) == Weights(a) + Weights(b)
  {
    if a == [] {
      assert a + b == b;
    } else {
      assert (a + b)[1..] == a[1..] + b;
      WeightsConcat(a[1..], b);
    }
  }

  lemma {:induction false} SplitWeighs(body: string)
    ensures Weights(Split(body)) <= |body|
  {
    if body != "" {
      if TakesValue(body[0]) && |body| > 1 {
        var one := ["-" + body];
        assert one[1..] == [] && !IsGroup("-" + body);
      } else {
        SplitWeighs(body[1..]);
        var tail := Split(body[1..]);
        assert (["-" + [body[0]]] + tail)[1..] == tail;
      }
    }
  }

  lemma GroupShrinks(arg: string, rest: seq<string>)
    requires IsGroup(arg)
    ensures Weights(Split(Tail(arg)) + rest) < Weights([arg] + rest)
  {
    SplitWeighs(Tail(arg));
    WeightsConcat(Split(Tail(arg)), rest);
    WeightsConcat([arg], rest);
    assert [arg][1..] == [];
  }

  // ---- options

  /** A matched option is recorded; its value comes inline, or from the next token. */
  function Take(p: Parsed, spec: Spec, raw: string, inline: Option<string>, rest: seq<string>)
    : (r: Result<(Parsed, seq<string>), UsageError>)
    ensures r.Ok? ==> r.value.1 == rest || (rest != [] && r.value.1 == rest[1..])
  {
    match spec.sets
    case Some(switch) =>
      if inline.Some? then Err(NoValueAllowed(spec.long)) else Ok((p.(on := p.on + {switch}), rest))
    case None =>
      if inline.Some? then Ok((p.(text := p.text + [inline.value]), rest))
      else if rest == [] then Err(ValueMissing(spec.long))
      else if rest[0] != "" && rest[0][0] == '-' then Err(ValueAmbiguous(raw, spec.long))
      else Ok((p.(text := p.text + [rest[0]]), rest[1..]))
  }

  function EqualsAt(s: string): (n: nat)
    ensures n <= |s| && (n < |s| ==> s[n] == '=')
  {
    RunLength(s, c => c != '=')
  }

  /** One token that is an option: the option taken, or the error. */
  function TakeOption(p: Parsed, arg: string, rest: seq<string>): (r: Result<(Parsed, seq<string>), UsageError>)
    requires IsLong(arg) || (IsShort(arg) && !IsGroup(arg))
    ensures r.Ok? ==> r.value.1 == rest || (rest != [] && r.value.1 == rest[1..])
  {
    if IsLong(arg) then
      var n := EqualsAt(arg[2..]);
      var name := arg[2..][..n];
      match ByLong(OPTIONS, name)
      case None => Err(Unknown("--" + name))
      case Some(spec) => Take(p, spec, "--" + name, if n < |arg| - 2 then Some(arg[2..][n + 1..]) else None, rest)
    else match ByShort(OPTIONS, arg[1])
      case None => Err(Unknown("-" + [arg[1]]))
      case Some(spec) => Take(p, spec, "-" + [arg[1]], if |arg| > 2 then Some(arg[2..]) else None, rest)
  }

  lemma RestWeighs(rest: seq<string>)
    ensures rest != [] ==> Weights(rest[1..]) <= Weights(rest)
  {
  }

  /** The arguments read from the front of the queue, before a `--` separator. */
  function ParseFrom(p: Parsed, pending: seq<string>): (r: Outcome)
    decreases Weights(pending)
  {
    if pending == [] then Ok(p)
    else
      var arg, rest := pending[0], pending[1..];
      assert pending == [arg] + rest;
      if arg == "--" then Ok(p.(positionals := p.positionals + rest))
      else if IsGroup(arg) then GroupShrinks(arg, rest); ParseFrom(p, Split(Tail(arg)) + rest)
      else if IsLong(arg) || IsShort(arg) then
        RestWeighs(rest);
        match TakeOption(p, arg, rest)
        case Err(e) => Err(e)
        case Ok((next, left)) => ParseFrom(next, left)
      else ParseFrom(p.(positionals := p.positionals + [arg]), rest)
  }

  function ParseArgs(argv: seq<string>): (r: Outcome) { ParseFrom(NOTHING, argv) }

  /** The split as it runs: over the characters of a group, stopping at the first that takes the
      rest for its value. */
  method SplitLoop(body: string) returns (tokens: seq<string>)
    ensures tokens == Split(body)
  {
    tokens := [];
    var i := 0;
    assert body[0..] == body && [] + Split(body) == Split(body);
    while i < |body|
      invariant i <= |body| && tokens + Split(body[i..]) == Split(body)
    {
      assert body[i..][1..] == body[i + 1..];
      if TakesValue(body[i]) && i < |body| - 1 { return tokens + ["-" + body[i..]]; }
      Assoc(tokens, ["-" + [body[i]]], Split(body[i + 1..]));
      tokens := tokens + ["-" + [body[i]]];
      i := i + 1;
    }
    assert body[i..] == "" && tokens + [] == tokens;
  }

  /** The parser as it runs: a queue popped at the front and pushed onto again, the options read so
      far, and whether the separator has been passed. */
  method ParseArgsLoop(argv: seq<string>) returns (r: Outcome)
    ensures r == ParseArgs(argv)
  {
    hide TakeOption, Split, ByLong, ByShort, IsGroup;
    var p, pending, done := NOTHING, argv, false;
    while pending != []
      invariant ParseArgs(argv) == if done then Ok(p.(positionals := p.positionals + pending)) else ParseFrom(p, pending)
      decreases !done, if done then |pending| else Weights(pending)
    {
      var arg := pending[0];
      assert pending == [arg] + pending[1..];
      pending := pending[1..];
      if done {
        Assoc(p.positionals, [arg], pending);
        p := p.(positionals := p.positionals + [arg]);
      } else if arg == "--" {
        done := true;
      } else if IsGroup(arg) {
        var tokens := SplitLoop(Tail(arg));
        GroupShrinks(arg, pending);
        pending := tokens + pending;
      } else if IsLong(arg) || IsShort(arg) {
        RestWeighs(pending);
        var taken := TakeOption(p, arg, pending);
        if taken.Err? { return Err(taken.error); }
        p, pending := taken.value.0, taken.value.1;
      } else {
        p := p.(positionals := p.positionals + [arg]);
      }
    }
    assert p.positionals + [] == p.positionals;
    r := Ok(p);
  }

  // ---- a group is its expansion

  /** The parser comes to a separator, written out or split from a group, among these tokens. */
  predicate Reaches(p: Parsed, pending: seq<string>)
    decreases Weights(pending)
  {
    pending != [] &&
    var arg, rest := pending[0], pending[1..];
    assert pending == [arg] + rest;
    if arg == "--" then true
    else if IsGroup(arg) then GroupShrinks(arg, rest); Reaches(p, Split(Tail(arg)) + rest)
    else if IsLong(arg) || IsShort(arg) then
      RestWeighs(rest);
      match TakeOption(p, arg, rest)
      case Err(_) => false
      case Ok((next, left)) => Reaches(next, left)
    else Reaches(p.(positionals := p.positionals + [arg]), rest)
  }

  lemma {:induction false} SplitSettled(body: string, i: nat)
    requires i < |Split(body)|
    ensures !IsGroup(Split(body)[i]) && |Split(body)[i]| > 1 && Split(body)[i][0] == '-'
  {
    if TakesValue(body[0]) && |body| > 1 {
    } else if i > 0 {
      SplitSettled(body[1..], i - 1);
    }
  }

  lemma SplitStarts(body: string)
    requires body != ""
    ensures Split(body) != [] && Split(body)[0] != "" && Split(body)[0][0] == '-'
  {
    SplitSettled(body, 0);
  }

  /** Both tokens are options to the parser that looks one token ahead for a value. */
  lemma AheadSame(p: Parsed, arg: string, a: seq<string>, b: seq<string>)
    requires IsLong(arg) || (IsShort(arg) && !IsGroup(arg))
    requires a != [] && b != [] && a[0] != "" && b[0] != "" && a[0][0] == '-' && b[0][0] == '-'
    ensures match TakeOption(p, arg, a)
            case Err(e) => TakeOption(p, arg, b) == Err(e)
            case Ok((next, left)) => left == a && TakeOption(p, arg, b) == Ok((next, b))
  {
    hide ByLong, ByShort, TakesValue, EqualsAt;
    assert a[1..] != a && b[1..] != b by { assert |a[1..]| < |a| && |b[1..]| < |b|; }
  }

  lemma TakeAhead(p: Parsed, arg: string, pre: seq<string>, more: seq<string>)
    requires (IsLong(arg) || (IsShort(arg) && !IsGroup(arg))) && pre != []
    ensures match TakeOption(p, arg, pre)
            case Err(e) => TakeOption(p, arg, pre + more) == Err(e)
            case Ok((next, left)) => TakeOption(p, arg, pre + more) == Ok((next, left + more))
  {
    hide ByLong, ByShort, TakesValue, EqualsAt;
    assert (pre + more)[1..] == pre[1..] + more;
  }

  lemma StepGroup(p: Parsed, arg: string, rest: seq<string>)
    requires IsGroup(arg)
    ensures ParseFrom(p, [arg] + rest) == ParseFrom(p, Split(Tail(arg)) + rest)
  {
    hide Split, TakeOption;
    var pending := [arg] + rest;
    assert pending[0] == arg && pending[1..] == rest;
  }

  lemma StepOther(p: Parsed, arg: string, rest: seq<string>)
    requires arg != "--" && !IsGroup(arg)
    ensures ParseFrom(p, [arg] + rest) ==
            if IsLong(arg) || IsShort(arg) then
              (match TakeOption(p, arg, rest) case Err(e) => Err(e) case Ok((next, left)) => ParseFrom(next, left))
            else ParseFrom(p.(positionals := p.positionals + [arg]), rest)
  {
    hide Split, TakeOption, IsGroup;
    var pending := [arg] + rest;
    assert pending[0] == arg && pending[1..] == rest;
  }

  lemma StepReach(p: Parsed, pending: seq<string>)
    requires pending != []
    ensures Reaches(p, pending) ==
            var arg, rest := pending[0], pending[1..];
            if arg == "--" then true
            else if IsGroup(arg) then Reaches(p, Split(Tail(arg)) + rest)
            else if IsLong(arg) || IsShort(arg) then
              (match TakeOption(p, arg, rest) case Err(_) => false case Ok((next, left)) => Reaches(next, left))
            else Reaches(p.(positionals := p.positionals + [arg]), rest)
  {
    hide Split, TakeOption, IsGroup, IsLong, IsShort;
  }

  /** Before a separator, writing a group out changes nothing: the same flags and positionals, or the
      same error. */
  lemma {:induction false} Unreached(p: Parsed, pre: seq<string>, group: string, post: seq<string>)
    requires !Reaches(p, pre) && IsGroup(group)
    ensures ParseFrom(p, pre + ([group] + post)) == ParseFrom(p, pre + (Split(Tail(group)) + post))
    decreases Weights(pre), 0
  {
    hide Split, TakeOption, IsGroup, ParseFrom, IsLong, IsShort, Reaches;
    var a, b := [group] + post, Split(Tail(group)) + post;
    if pre == [] {
      assert pre + a == a && pre + b == b;
      StepGroup(p, group, post);
    } else {
      var arg, rest := pre[0], pre[1..];
      assert pre == [arg] + rest;
      assert pre + a == [arg] + (rest + a) && pre + b == [arg] + (rest + b);
      StepReach(p, pre);
      if IsGroup(arg) {
        var tokens := Split(Tail(arg));
        StepGroup(p, arg, rest + a);
        StepGroup(p, arg, rest + b);
        assert tokens + (rest + a) == (tokens + rest) + a && tokens + (rest + b) == (tokens + rest) + b;
        GroupShrinks(arg, rest);
        Unreached(p, tokens + rest, group, post);
      } else {
        StepOther(p, arg, rest + a);
        StepOther(p, arg, rest + b);
        if IsLong(arg) || IsShort(arg) {
          OptionUnreached(p, arg, rest, group, post);
        } else {
          Unreached(p.(positionals := p.positionals + [arg]), rest, group, post);
        }
      }
    }
  }

  lemma GroupStarts(group: string)
    requires IsGroup(group)
    ensures group != "" && group[0] == '-' && Tail(group) != ""
  {
  }

  lemma {:induction false} OptionUnreached(p: Parsed, arg: string, rest: seq<string>, group: string, post: seq<string>)
    requires IsGroup(group) && !IsGroup(arg) && (IsLong(arg) || IsShort(arg))
    requires match TakeOption(p, arg, rest) case Err(_) => true case Ok((next, left)) => !Reaches(next, left)
    ensures var a, b := rest + ([group] + post), rest + (Split(Tail(group)) + post);
            (match TakeOption(p, arg, a) case Err(e) => Outcome.Err(e) case Ok((next, left)) => ParseFrom(next, left)) ==
            (match TakeOption(p, arg, b) case Err(e) => Outcome.Err(e) case Ok((next, left)) => ParseFrom(next, left))
    decreases Weights(rest), 1
  {
    hide Split, TakeOption, IsGroup, ParseFrom, IsLong, IsShort, Reaches;
    var a, b := [group] + post, Split(Tail(group)) + post;
    if rest == [] {
      assert rest + a == a && rest + b == b;
      GroupStarts(group);
      SplitStarts(Tail(group));
      AheadSame(p, arg, a, b);
      if TakeOption(p, arg, a).Ok? { StepGroup(TakeOption(p, arg, a).value.0, group, post); }
    } else {
      TakeAhead(p, arg, rest, a);
      TakeAhead(p, arg, rest, b);
      match TakeOption(p, arg, rest)
      case Err(_) =>
      case Ok((next, left)) =>
        if left == rest {
          Unreached(next, rest, group, post);
        } else {
          RestWeighs(rest);
          Unreached(next, rest[1..], group, post);
        }
    }
  }

  /** Past a separator everything is positional, whatever it looks like. */
  lemma {:induction false} Reached(p: Parsed, pre: seq<string>, more: seq<string>)
    requires Reaches(p, pre)
    ensures ParseFrom(p, pre).Ok?
    ensures var r := ParseFrom(p, pre).value; ParseFrom(p, pre + more) == Ok(r.(positionals := r.positionals + more))
    decreases Weights(pre)
  {
    hide Split, TakeOption, IsGroup, ParseFrom, IsLong, IsShort, Reaches;
    NothingReached(p, pre);
    StepReach(p, pre);
    var arg, rest := pre[0], pre[1..];
    assert pre == [arg] + rest && pre + more == [arg] + (rest + more);
    if arg == "--" {
      StepSeparator(p, rest);
      StepSeparator(p, rest + more);
      Assoc(p.positionals, rest, more);
    } else if IsGroup(arg) {
      var tokens := Split(Tail(arg));
      StepGroup(p, arg, rest);
      StepGroup(p, arg, rest + more);
      Assoc(tokens, rest, more);
      GroupShrinks(arg, rest);
      Reached(p, tokens + rest, more);
    } else {
      StepOther(p, arg, rest);
      StepOther(p, arg, rest + more);
      if IsLong(arg) || IsShort(arg) {
        var (next, left) := TakeOption(p, arg, rest).value;
        RestWeighs(rest);
        Reached(next, left, more);
        NothingReached(next, left);
        if rest != [] { TakeAhead(p, arg, rest, more); }
      } else {
        Reached(p.(positionals := p.positionals + [arg]), rest, more);
      }
    }
  }

  lemma NothingReached(p: Parsed, pending: seq<string>)
    requires Reaches(p, pending)
    ensures pending != []
  {
  }

  lemma GroupIsSplit(group: string)
    requires IsGroup(group)
    ensures Split(Tail(group)) != [] && Split(Tail(group))[0] != group
  {
    assert |Split(Tail(group))[0]| == 2;
  }

  /** Writing a group out gives the same flags, positionals or error exactly when the parser comes to
      no separator before it. */
  lemma GroupExpands(p: Parsed, pre: seq<string>, group: string, post: seq<string>)
    requires IsGroup(group)
    ensures ParseFrom(p, pre + ([group] + post)) == ParseFrom(p, pre + (Split(Tail(group)) + post)) <==> !Reaches(p, pre)
  {
    hide ParseFrom, Reaches, Split, IsGroup;
    var a, b := [group] + post, Split(Tail(group)) + post;
    if Reaches(p, pre) {
      Reached(p, pre, a);
      Reached(p, pre, b);
      GroupIsSplit(group);
      var done := ParseFrom(p, pre).value.positionals;
      assert (done + a)[|done|] == group && (done + b)[|done|] == Split(Tail(group))[0];
    } else {
      Unreached(p, pre, group, post);
    }
  }

  /** The table is searched in order. */
  lemma {:induction false} ShortFound(specs: seq<Spec>, c: char, k: nat)
    requires k <= |specs| && forall i :: 0 <= i < k ==> specs[i].short != Some(c)
    requires k < |specs| ==> specs[k].short == Some(c)
    ensures ByShort(specs, c) == if k < |specs| then Some(specs[k]) else None
  {
    if k > 0 { ShortFound(specs[1..], c, k - 1); }
  }

  lemma ShortExact(c: char)
    ensures match ByShort(OPTIONS, c)
            case None => c != 't' && SwitchLetter(c).None?
            case Some(spec) => if spec.sets.None? then c == 't' && spec.long == "text" else spec.sets == SwitchLetter(c)
  {
    ShortFound(OPTIONS, c, if c == 't' then 0 else if c == 'q' then 5 else if c == 'h' then 6 else if c == 'v' then 7 else 8);
    hide ByShort;
  }

  /** `-t` is the one short option that takes a value. */
  lemma ValueLetter(c: char)
    ensures TakesValue(c) <==> c == 't'
  {
    hide ByShort;
    ShortExact(c);
    if c == 't' { ShortFound(OPTIONS, c, 0); }
  }

  lemma QuietSplits()
    ensures IsGroup("-q-") && Split("q-") == ["-q", "--"]
  {
    hide TakesValue, Split;
    ValueLetter('-');
    ValueLetter('q');
    var body := "q-";
    assert body[1..] == "-" && "-"[1..] == "";
    assert "-" + ['-'] == "--" && "-" + ['q'] == "-q";
    SplitStep("");
    SplitStep("-");
    SplitStep(body);
  }

  lemma SplitStep(body: string)
    ensures Split(body) ==
            if body == "" then []
            else if TakesValue(body[0]) && |body| > 1 then ["-" + body]
            else ["-" + [body[0]]] + Split(body[1..])
  {
    hide TakesValue;
  }

  /** A hyphen in a group is the separator once the group is split: what follows is positional. */
  lemma SeparatorInGroup(after: seq<string>)
    ensures ParseArgs(["-q-"] + after) == Ok(Parsed([], {Quiet}, after))
  {
    hide ParseFrom, TakeOption, Split, IsGroup;
    var rest, next := ["--"] + after, NOTHING.(on := {Quiet});
    QuietSplits();
    StepGroup(NOTHING, "-q-", after);
    assert Tail("-q-") == "q-" && ["-q", "--"] + after == ["-q"] + rest;
    QuietTaken(rest);
    StepOther(NOTHING, "-q", rest);
    StepSeparator(next, after);
    assert next.positionals + after == after;
  }

  lemma PlainSplits()
    ensures IsGroup("-vh") && Split("vh") == ["-v", "-h"]
  {
    hide TakesValue, Split;
    ValueLetter('v');
    ValueLetter('h');
    var body := "vh";
    assert body[1..] == "h" && "h"[1..] == "";
    assert "-" + ['v'] == "-v" && "-" + ['h'] == "-h";
    SplitStep("");
    SplitStep("h");
    SplitStep(body);
  }

  /** After that hyphen a group is no longer its expansion: `-q- -vh` is not `-q- -v -h`. */
  lemma SeparatorKeepsGroup()
    ensures IsGroup("-vh") && Split(Tail("-vh")) == ["-v", "-h"]
    ensures ParseArgs(["-q-"] + ["-vh"]) != ParseArgs(["-q-"] + ["-v", "-h"])
  {
    hide ParseArgs, Split, IsGroup;
    PlainSplits();
    assert Tail("-vh") == "vh";
    SeparatorInGroup(["-vh"]);
    SeparatorInGroup(["-v", "-h"]);
    assert |["-vh"]| != |["-v", "-h"]|;
  }

  lemma StepSeparator(p: Parsed, rest: seq<string>)
    ensures ParseFrom(p, ["--"] + rest) == Ok(p.(positionals := p.positionals + rest))
  {
    var pending := ["--"] + rest;
    assert pending[0] == "--" && pending[1..] == rest;
  }

  lemma QuietTaken(rest: seq<string>)
    ensures !IsGroup("-q") && IsShort("-q")
    ensures TakeOption(NOTHING, "-q", rest) == Ok((NOTHING.(on := {Quiet}), rest))
  {
    hide ByShort;
    ShortExact('q');
    assert NOTHING.on + {Quiet} == {Quiet};
  }

  // ---- what each option records, by its name

  /** The switches, as the help text names them. */
  function SwitchNamed(name: string): (r: Option<Switch>) {
    if name == "stdin" then Some(Stdin)
    else if name == "json" then Some(Json)
    else if name == "ast" then Some(Ast)
    else if name == "strip-final-newline" then Some(StripFinalNewline)
    else if name == "quiet" then Some(Quiet)
    else if name == "help" then Some(Help)
    else if name == "version" then Some(Version)
    else None
  }

  function SwitchLetter(c: char): (r: Option<Switch>) {
    match c
    case 'q' => Some(Quiet)
    case 'h' => Some(Help)
    case 'v' => Some(Version)
    case _ => None
  }

  lemma LongStep(specs: seq<Spec>, name: string)
    requires specs != []
    ensures ByLong(specs, name) == if specs[0].long == name then Some(specs[0]) else ByLong(specs[1..], name)
  {
  }

  lemma {:induction false} LongAt(k: nat, name: string)
    requires k <= |OPTIONS| && forall i :: 0 <= i < k ==> OPTIONS[i].long != name
    ensures ByLong(OPTIONS, name) == ByLong(OPTIONS[k..], name)
  {
    hide ByLong;
    if k == 0 {
      assert OPTIONS[0..] == OPTIONS;
    } else {
      LongAt(k - 1, name);
      LongStep(OPTIONS[k - 1..], name);
      assert OPTIONS[k - 1..][1..] == OPTIONS[k..];
    }
  }

  lemma LongFound(k: nat, name: string)
    requires k < |OPTIONS| && OPTIONS[k].long == name && forall i :: 0 <= i < k ==> OPTIONS[i].long != name
    ensures ByLong(OPTIONS, name) == Some(OPTIONS[k])
  {
    hide ByLong;
    LongAt(k, name);
    LongStep(OPTIONS[k..], name);
  }

  /** The table of long names is the help text's. */
  lemma LongExact(name: string)
    ensures match ByLong(OPTIONS, name)
            case None => name != "text" && SwitchNamed(name).None?
            case Some(spec) => spec.long == name && (if spec.sets.None? then name == "text" else spec.sets == SwitchNamed(name))
  {
    hide ByLong;
    if k: nat :| k < |OPTIONS| && OPTIONS[k].long == name && forall i :: 0 <= i < k ==> OPTIONS[i].long != name {
      LongFound(k, name);
    } else {
      NoneNamed(name, |OPTIONS|);
      LongAt(|OPTIONS|, name);
      assert OPTIONS[|OPTIONS|..] == [] && ByLong([], name) == None by { NothingNamed(name); }
      assert OPTIONS[0].long != name && OPTIONS[1].long != name && OPTIONS[2].long != name && OPTIONS[3].long != name;
      assert OPTIONS[4].long != name && OPTIONS[5].long != name && OPTIONS[6].long != name && OPTIONS[7].long != name;
    }
  }

  lemma NothingNamed(name: string)
    ensures ByLong([], name) == None
  {
  }

  lemma {:induction false} NoneNamed(name: string, k: nat)
    requires k <= |OPTIONS|
    requires !exists m: nat :: m < |OPTIONS| && OPTIONS[m].long == name && forall i :: 0 <= i < m ==> OPTIONS[i].long != name
    ensures forall i :: 0 <= i < k ==> OPTIONS[i].long != name
  {
    if k > 0 { NoneNamed(name, k - 1); }
  }

  function Inline(v: Option<string>): (s: string) { if v.Some? then "=" + v.value else "" }

  lemma LongParts(name: string, v: Option<string>)
    requires '=' !in name
    ensures var body := name + Inline(v);
            && EqualsAt(body) == |name| && body[..|name|] == name && (|name| < |body| <==> v.Some?)
            && (v.Some? ==> body[|name| + 1..] == v.value)
  {
    hide RunLength;
    var body := name + Inline(v);
    RunLengthIs(name, Inline(v), c => c != '=');
    if v.Some? { assert body[|name|..] == "=" + v.value; }
  }

  lemma Hyphens(name: string, v: Option<string>)
    requires name != "" || v.Some?
    ensures var arg := "--" + name + Inline(v); arg != "--" && !IsGroup(arg) && IsLong(arg) && arg[2..] == name + Inline(v)
  {
    var arg := "--" + name + Inline(v);
    assert arg == "--" + (name + Inline(v)) && arg[..2] == "--" && arg[1] == '-';
  }

  /** A long option is taken by the name before the first `=`, with what follows that for its value. */
  lemma LongTaken(p: Parsed, name: string, v: Option<string>, rest: seq<string>)
    requires '=' !in name && (name != "" || v.Some?)
    ensures var arg := "--" + name + Inline(v);
            && arg != "--" && !IsGroup(arg) && IsLong(arg)
            && TakeOption(p, arg, rest) ==
               match ByLong(OPTIONS, name)
               case None => Err(Unknown("--" + name))
               case Some(spec) => Take(p, spec, "--" + name, v, rest)
  {
    hide ByLong, EqualsAt, TakesValue, Take, Inline, IsGroup, IsLong;
    Hyphens(name, v);
    LongParts(name, v);
  }

  lemma ShortTaken(p: Parsed, c: char, v: string, rest: seq<string>)
    requires c != '-' && (v != "" ==> c == 't')
    ensures var arg := ['-', c] + v;
            && arg != "--" && !IsGroup(arg) && IsShort(arg) && !IsLong(arg)
            && TakeOption(p, arg, rest) ==
               match ByShort(OPTIONS, c)
               case None => Err(Unknown(['-', c]))
               case Some(spec) => Take(p, spec, ['-', c], if v == "" then None else Some(v), rest)
  {
    hide ByShort, ByLong, Take, EqualsAt, TakesValue;
    var arg := ['-', c] + v;
    ValueLetter(c);
    assert arg[0] == '-' && arg[1] == c && arg[2..] == v && "-" + [c] == ['-', c];
    assert arg[..2][1] == c;
  }

  lemma LongStepped(p: Parsed, name: string, v: Option<string>, rest: seq<string>)
    requires '=' !in name && (name != "" || v.Some?)
    ensures ParseFrom(p, ["--" + name + Inline(v)] + rest) ==
            match ByLong(OPTIONS, name)
            case None => Err(Unknown("--" + name))
            case Some(spec) =>
              match Take(p, spec, "--" + name, v, rest) case Err(e) => Err(e) case Ok((next, left)) => ParseFrom(next, left)
  {
    hide ByLong, Take, TakeOption, ParseFrom, IsGroup, IsShort, IsLong;
    LongTaken(p, name, v, rest);
    StepOther(p, "--" + name + Inline(v), rest);
  }

  lemma ShortStepped(p: Parsed, c: char, v: string, rest: seq<string>)
    requires c != '-' && (v != "" ==> c == 't')
    ensures ParseFrom(p, [['-', c] + v] + rest) ==
            match ByShort(OPTIONS, c)
            case None => Err(Unknown(['-', c]))
            case Some(spec) =>
              match Take(p, spec, ['-', c], if v == "" then None else Some(v), rest)
              case Err(e) => Err(e)
              case Ok((next, left)) => ParseFrom(next, left)
  {
    hide ByShort, Take, TakeOption, ParseFrom, IsGroup, IsShort, IsLong;
    ShortTaken(p, c, v, rest);
    StepOther(p, ['-', c] + v, rest);
  }

  predicate Dashed(v: string) { v != "" && v[0] == '-' }

  /** `--text=v`, `-tv`, `--text v` and `-t v` record exactly `v`, which in a token of its own must not
      start with a hyphen. */
  lemma TextRecorded(p: Parsed, v: string, rest: seq<string>)
    ensures ParseFrom(p, ["--text=" + v] + rest) == ParseFrom(p.(text := p.text + [v]), rest)
    ensures v != "" ==> ParseFrom(p, ["-t" + v] + rest) == ParseFrom(p.(text := p.text + [v]), rest)
    ensures ParseFrom(p, ["--text"] + ([v] + rest)) ==
            if Dashed(v) then Err(ValueAmbiguous("--text", "text")) else ParseFrom(p.(text := p.text + [v]), rest)
    ensures ParseFrom(p, ["-t"] + ([v] + rest)) ==
            if Dashed(v) then Err(ValueAmbiguous("-t", "text")) else ParseFrom(p.(text := p.text + [v]), rest)
    ensures ParseFrom(p, ["--text"]) == Err(ValueMissing("text")) && ParseFrom(p, ["-t"]) == Err(ValueMissing("text"))
  {
    hide ParseFrom, ByLong, ByShort;
    var next := [v] + rest;
    LongExact("text");
    assert SwitchNamed("text").None?;
    LongFound(0, "text");
    ShortFound(OPTIONS, 't', 0);
    assert "--" + "text" == "--text" && "--" + "text" + ("=" + v) == "--text=" + v && "--" + "text" + "" == "--text";
    assert ['-', 't'] + v == "-t" + v && ['-', 't'] + "" == "-t" == ['-', 't'];
    assert next[0] == v && next[1..] == rest && next != [] && ["--text"] + [] == ["--text"] && ["-t"] + [] == ["-t"];
    LongStepped(p, "text", Some(v), rest);
    LongStepped(p, "text", None, next);
    LongStepped(p, "text", None, []);
    if v != "" { ShortStepped(p, 't', v, rest); }
    ShortStepped(p, 't', "", next);
    ShortStepped(p, 't', "", []);
  }

  lemma NamedPlainly(name: string)
    requires SwitchNamed(name).Some?
    ensures '=' !in name && name != "" && name != "text"
  {
  }

  /** A switch, by either name, adds itself and nothing else; it takes no value. */
  lemma SwitchRecorded(p: Parsed, name: string, c: char, v: string, rest: seq<string>)
    ensures SwitchNamed(name).Some? ==>
              && ParseFrom(p, ["--" + name] + rest) == ParseFrom(p.(on := p.on + {SwitchNamed(name).value}), rest)
              && ParseFrom(p, ["--" + name + "=" + v] + rest) == Err(NoValueAllowed(name))
    ensures SwitchLetter(c).Some? ==>
              ParseFrom(p, [['-', c]] + rest) == ParseFrom(p.(on := p.on + {SwitchLetter(c).value}), rest)
  {
    hide ParseFrom, ByLong, ByShort;
    hide SwitchNamed;
    if SwitchNamed(name).Some? {
      NamedPlainly(name);
      LongExact(name);
      assert "--" + name + ("=" + v) == "--" + name + "=" + v && "--" + name + "" == "--" + name;
      LongStepped(p, name, Some(v), rest);
      LongStepped(p, name, None, rest);
    }
    if SwitchLetter(c).Some? {
      ShortExact(c);
      assert ['-', c] + "" == ['-', c];
      ShortStepped(p, c, "", rest);
    }
  }

  /** Any other name is refused, with a value or without. */
  lemma UnknownRefused(p: Parsed, name: string, c: char, v: string, rest: seq<string>)
    requires '=' !in name && name != "text" && SwitchNamed(name).None?
    requires c != '-' && c != 't' && SwitchLetter(c).None?
    ensures name != "" ==> ParseFrom(p, ["--" + name] + rest) == Err(Unknown("--" + name))
    ensures ParseFrom(p, ["--" + name + "=" + v] + rest) == Err(Unknown("--" + name))
    ensures ParseFrom(p, [['-', c]] + rest) == Err(Unknown(['-', c]))
  {
    hide ParseFrom, ByLong, ByShort;
    LongExact(name);
    ShortExact(c);
    assert "--" + name + ("=" + v) == "--" + name + "=" + v && "--" + name + "" == "--" + name;
    LongStepped(p, name, Some(v), rest);
    if name != "" { LongStepped(p, name, None, rest); }
    assert ['-', c] + "" == ['-', c];
    ShortStepped(p, c, "", rest);
  }

  /** What does not start with a hyphen, and a hyphen alone, is positional. */
  lemma PlainRecorded(p: Parsed, x: string, rest: seq<string>)
    requires !Dashed(x) || x == "-"
    ensures ParseFrom(p, [x] + rest) == ParseFrom(p.(positionals := p.positionals + [x]), rest)
  {
    hide ParseFrom;
    StepOther(p, x, rest);
  }

  // ---- a whole vector

  /** What ends a group: nothing, or `t` with the rest of the token or the next token for its value. */
  datatype Ending = Bare | Glued(v: string) | Following(v: string)

  /** An argument of the command, however it is spelled. */
  datatype Argument =
    | LongText(v: string)           // --text=v
    | LongTextThen(v: string)       // --text v
    | ShortText(v: string)          // -tv
    | ShortTextThen(v: string)      // -t v
    | LongSwitch(name: string)      // --name
    | ShortSwitch(c: char)          // -c
    | Letters(cs: string, end: Ending) // -cs, -cstv or -cst v
    | Plain(x: string)

  predicate AllSwitches(cs: string) { forall i :: 0 <= i < |cs| ==> SwitchLetter(cs[i]).Some? }

  predicate WellFormed(a: Argument) {
    match a
    case LongText(_) => true
    case LongTextThen(v) => !Dashed(v)
    case ShortText(v) => v != ""
    case ShortTextThen(v) => !Dashed(v)
    case LongSwitch(name) => SwitchNamed(name).Some?
    case ShortSwitch(c) => SwitchLetter(c).Some?
    case Letters(cs, end) =>
      cs != "" && AllSwitches(cs) &&
      (match end case Bare => |cs| > 1 case Glued(v) => v != "" case Following(v) => !Dashed(v))
    case Plain(x) => !Dashed(x) || x == "-"
  }

  function Tokens(a: Argument): (ts: seq<string>) {
    match a
    case LongText(v) => ["--text=" + v]
    case LongTextThen(v) => ["--text", v]
    case ShortText(v) => ["-t" + v]
    case ShortTextThen(v) => ["-t", v]
    case LongSwitch(name) => ["--" + name]
    case ShortSwitch(c) => [['-', c]]
    case Letters(cs, end) =>
      (match end case Bare => ["-" + cs] case Glued(v) => ["-" + (cs + ("t" + v))] case Following(v) => ["-" + (cs + "t"), v])
    case Plain(x) => [x]
  }

  function Switched(p: Parsed, cs: string): (r: Parsed)
    decreases |cs|
  {
    if cs == "" then p
    else Switched(if SwitchLetter(cs[0]).Some? then p.(on := p.on + {SwitchLetter(cs[0]).value}) else p, cs[1..])
  }

  function Recorded(p: Parsed, a: Argument): (r: Parsed) {
    match a
    case LongText(v) => p.(text := p.text + [v])
    case LongTextThen(v) => p.(text := p.text + [v])
    case ShortText(v) => p.(text := p.text + [v])
    case ShortTextThen(v) => p.(text := p.text + [v])
    case LongSwitch(name) => if SwitchNamed(name).Some? then p.(on := p.on + {SwitchNamed(name).value}) else p
    case ShortSwitch(c) => if SwitchLetter(c).Some? then p.(on := p.on + {SwitchLetter(c).value}) else p
    case Letters(cs, end) =>
      var q := Switched(p, cs);
      (match end case Bare => q case Glued(v) => q.(text := q.text + [v]) case Following(v) => q.(text := q.text + [v]))
    case Plain(x) => p.(positionals := p.positionals + [x])
  }

  function AllTokens(args: seq<Argument>): (ts: seq<string>) { if args == [] then [] else Tokens(args[0]) + AllTokens(args[1..]) }

  function AllRecorded(p: Parsed, args: seq<Argument>): (r: Parsed)
    decreases |args|
  {
    if args == [] then p else AllRecorded(Recorded(p, args[0]), args[1..])
  }

  lemma SwitchTaken(p: Parsed, c: char, rest: seq<string>)
    requires SwitchLetter(c).Some?
    ensures ParseFrom(p, ["-" + [c]] + rest) == ParseFrom(p.(on := p.on + {SwitchLetter(c).value}), rest)
  {
    hide ParseFrom;
    SwitchRecorded(p, "stdin", c, "", rest);
    assert "-" + [c] == ['-', c];
  }

  /** The tokens a group is split into, one by one. */
  lemma {:induction false} LettersTaken(p: Parsed, cs: string, tail: string, rest: seq<string>)
    requires AllSwitches(cs) && (tail != "" ==> tail[0] == 't')
    ensures ParseFrom(p, Split(cs + tail) + rest) ==
            ParseFrom(Switched(p, cs), (if tail == "" then [] else ["-" + tail]) + rest)
    decreases |cs|
  {
    hide ParseFrom, Split, TakesValue, SwitchLetter;
    var body := cs + tail;
    SplitStep(body);
    if cs == "" {
      assert body == tail;
      if tail != "" {
        ValueLetter('t');
        SplitStep(tail[1..]);
        if |tail| == 1 {
          assert tail == [tail[0]] && tail[1..] == "";
          assert Split(tail) == ["-" + tail] + [] == ["-" + tail];
        }
      }
    } else {
      var c, next := cs[0], Split(cs[1..] + tail);
      assert body[0] == c && body[1..] == cs[1..] + tail;
      LetterPlain(c);
      ValueLetter(c);
      assert (["-" + [c]] + next) + rest == ["-" + [c]] + (next + rest);
      SwitchTaken(p, c, next + rest);
      LettersTaken(p.(on := p.on + {SwitchLetter(c).value}), cs[1..], tail, rest);
    }
  }

  lemma LetterPlain(c: char)
    requires SwitchLetter(c).Some?
    ensures c != 't' && c != '-'
  {
  }

  lemma GroupTaken(p: Parsed, cs: string, tail: string, rest: seq<string>)
    requires cs != "" && AllSwitches(cs) && |cs + tail| > 1 && (tail != "" ==> tail[0] == 't')
    ensures ParseFrom(p, ["-" + (cs + tail)] + rest) ==
            ParseFrom(Switched(p, cs), (if tail == "" then [] else ["-" + tail]) + rest)
  {
    hide ParseFrom, Split, TakesValue, SwitchLetter, Switched;
    var arg := "-" + (cs + tail);
    LetterPlain(cs[0]);
    ValueLetter(cs[0]);
    assert arg[0] == '-' && arg[1] == cs[0] && arg[1..] == cs + tail;
    StepGroup(p, arg, rest);
    LettersTaken(p, cs, tail, rest);
  }

  /** One argument records what it says, whatever comes after it. */
  lemma ArgumentMeans(p: Parsed, a: Argument, rest: seq<string>)
    requires WellFormed(a)
    ensures ParseFrom(p, Tokens(a) + rest) == ParseFrom(Recorded(p, a), rest)
  {
    hide ParseFrom, SwitchNamed, SwitchLetter, AllSwitches, Switched;
    match a
    case LongText(v) => TextRecorded(p, v, rest);
    case LongTextThen(v) =>
      TextRecorded(p, v, rest);
      assert ["--text", v] + rest == ["--text"] + ([v] + rest);
    case ShortText(v) => TextRecorded(p, v, rest);
    case ShortTextThen(v) =>
      TextRecorded(p, v, rest);
      assert ["-t", v] + rest == ["-t"] + ([v] + rest);
    case LongSwitch(name) => SwitchRecorded(p, name, 'q', "", rest);
    case ShortSwitch(c) => SwitchRecorded(p, "stdin", c, "", rest);
    case Letters(cs, Bare) =>
      assert cs + "" == cs && [] + rest == rest;
      GroupTaken(p, cs, "", rest);
    case Letters(cs, Glued(v)) =>
      GroupTaken(p, cs, "t" + v, rest);
      TextRecorded(Switched(p, cs), v, rest);
      assert "-" + ("t" + v) == "-t" + v;
    case Letters(cs, Following(v)) =>
      GroupTaken(p, cs, "t", [v] + rest);
      TextRecorded(Switched(p, cs), v, rest);
      assert ["-" + (cs + "t"), v] + rest == ["-" + (cs + "t")] + ([v] + rest) && "-" + "t" == "-t";
    case Plain(x) => PlainRecorded(p, x, rest);
  }

  /** However its arguments are spelled, a vector records them in order, and goes on with what comes
      after: nothing, a separator and positionals, or an argument that is refused. */
  lemma {:induction false} ArgumentsMean(p: Parsed, args: seq<Argument>, rest: seq<string>)
    requires forall i :: 0 <= i < |args| ==> WellFormed(args[i])
    ensures ParseFrom(p, AllTokens(args) + rest) == ParseFrom(AllRecorded(p, args), rest)
    decreases |args|
  {
    hide ParseFrom, Tokens, Recorded, WellFormed;
    if args == [] {
      assert [] + rest == rest;
    } else {
      assert (Tokens(args[0]) + AllTokens(args[1..])) + rest == Tokens(args[0]) + (AllTokens(args[1..]) + rest);
      ArgumentMeans(p, args[0], AllTokens(args[1..]) + rest);
      ArgumentsMean(Recorded(p, args[0]), args[1..], rest);
    }
  }

  /** What a vector of arguments comes to: with nothing after it, and with a separator, after which
      every token is positional. */
  lemma VectorMeans(args: seq<Argument>, after: seq<string>)
    requires forall i :: 0 <= i < |args| ==> WellFormed(args[i])
    ensures var r := AllRecorded(NOTHING, args);
            && ParseArgs(AllTokens(args)) == Ok(r)
            && ParseArgs(AllTokens(args) + (["--"] + after)) == Ok(r.(positionals := r.positionals + after))
  {
    hide ParseFrom, AllTokens, AllRecorded, WellFormed;
    ArgumentsMean(NOTHING, args, []);
    ArgumentsMean(NOTHING, args, ["--"] + after);
    assert AllTokens(args) + [] == AllTokens(args);
    NothingPending(AllRecorded(NOTHING, args));
    StepSeparator(AllRecorded(NOTHING, args), after);
  }

  lemma NothingPending(p: Parsed)
    ensures ParseFrom(p, []) == Ok(p)
  {
  }
}
