/** The notation-neutral grammar IR that the parser builds and the renderer writes back. */
module Ir {

  /** The upper bound of a repetition. */
  datatype Bound = Finite(n: nat) | Infinity

  predicate Below(max: Bound, min: nat) { max.Finite? && max.n < min }

  datatype Element =
    | Term(literal: string, caseSensitive: bool)
    | Ref(name: string)
    | Regex(pattern: string, flags: string)
    | Group(alts: seq<Sequence>)
    | Opt(inner: Element)
    | Star(inner: Element)
    | Plus(inner: Element)
    | Rep(min: nat, max: Bound, inner: Element)
    | TokTerm(text: string, negated: bool)  // read by the notation, refused by validation
    | TokenRef(name: string)                // an engine lexer token: no GBNF spelling
    | Prose(text: string)                   // informal ABNF prose: no GBNF spelling

  datatype Sequence = Sequence(els: seq<Element>)

  datatype Production = Production(name: string, alts: seq<Sequence>)

  /** `.`, lowered: any one character. */
  const ANY_PATTERN: string := "[\\s\\S]"

  const ROOT: string := "root"

  /** The characters of a rule name. */
  predicate IsWord(c: char) {
    'a' <= c <= 'z' || 'A' <= c <= 'Z' || '0' <= c <= '9' || c == '_' || c == '-'
  }

  predicate LegalName(s: string) {
    s != "" && forall i :: 0 <= i < |s| ==> IsWord(s[i])
  }

  function Names(ps: seq<Production>): (ns: seq<string>)
    ensures |ns| == |ps| && forall i :: 0 <= i < |ps| ==> ns[i] == ps[i].name
  {
    seq(|ps|, i requires 0 <= i < |ps| => ps[i].name)
  }

  predicate Distinct(ns: seq<string>) {
    forall i, j :: 0 <= i < j < |ns| ==> ns[i] != ns[j]
  }
}
