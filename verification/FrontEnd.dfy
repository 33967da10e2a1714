/** GBNF text to grammar: lex, run the rule table, reduce, validate. */
module FrontEnd {
  import opened Text
  import opened Ir
  import opened Lexer
  import opened Table
  import opened Validate

  datatype ParseError = Unread(failure: Failure) | NothingRead | Refused(error: CompileError)

  function Reduce(raw: seq<Production>): (r: Result<seq<Production>, ParseError>) {
    if raw == [] then Err(NothingRead)
    else
      var ps := Dedupe(raw);
      match Check(ps)
      case Some(e) => Err(Refused(e))
      case None => Ok(ps)
  }

  function ParseGbnf(caps: bool, src: string): (r: Result<seq<Production>, ParseError>) {
    match Lex(src)
    case None => Err(Unread(Syntax))
    case Some(tokens) =>
      match ParseTokens(caps, tokens, |src|)
      case Err(f) => Err(Unread(f))
      case Ok(raw) => Reduce(raw)
  }

  /** The front-end as it runs. */
  method ParseGbnfSteps(caps: bool, src: string) returns (r: Result<seq<Production>, ParseError>)
    ensures r == ParseGbnf(caps, src)
  {
    hide Run, Check;
    var ok, tokens := LexLoop(src);
    if !ok { return Err(Unread(Syntax)); }
    var engine := new Engine(caps, tokens);
    var raw := engine.Finish(Budget(|src|));
    if raw.Err? { return Err(Unread(raw.error)); }
    if raw.value == [] { return Err(NothingRead); }
    var ps := DedupeLoop(raw.value);
    var refused := Check(ps);
    r := if refused.Some? then Err(Refused(refused.value)) else Ok(ps);
  }
}
