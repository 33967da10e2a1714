/** What the front-end answers, on every source, said without a lexer, an engine or a search. */
module Parsing {
  import opened Text
  import opened Ir
  import opened Lexer
  import opened Segments
  import opened Derivation
  import opened Table
  import opened Build
  import opened Validate
  import opened FrontEnd

  /** The source is cut into these segments, their tokens have this derivation, and these are the
      productions it is worth. */
  ghost predicate Stands(caps: bool, src: string, ss: seq<Segment>, trees: seq<ProdTree>, raw: seq<Production>) {
    && CutsInto(ss, src, YieldProds(trees))
    && PlacedProds(trees) && BuildProds(trees) == Some(raw)
    && (caps ==> ShallowProds(trees))
  }

  /** The grammar the productions reduce to: the last definition of each name in the place of the
      first, with a `root`, no tokenizer terminal, and no reference to a rule that is not there. */
  ghost predicate ReducesTo(raw: seq<Production>, g: seq<Production>) {
    raw != [] && LastInPlace(raw, g) && Compiles(g)
  }

  lemma Taken(caps: bool, ts: seq<Token>, length: nat, trees: seq<ProdTree>, raw: seq<Production>)
    requires ZZ !in ts && |ts| <= length
    requires PlacedProds(trees) && YieldProds(trees) == ts && BuildProds(trees) == Some(raw) && (caps ==> ShallowProds(trees))
    ensures ParseTokens(caps, ts, length) == Ok(raw)
  {
    hide ParseTokens, BuildProds, ShallowProds, PlacedProds, YieldProds;
    TableBuilds(caps, ts, length, raw);
  }

  /** A source is read as a grammar exactly when it is cut into tokens that derive productions, and
      these reduce to the grammar. */
  lemma ParseExact(caps: bool, src: string, g: seq<Production>)
    ensures ParseGbnf(caps, src) == Ok(g) <==> exists ss, trees, raw :: Stands(caps, src, ss, trees, raw) && ReducesTo(raw, g)
  {
    hide Lex, ParseTokens, CutsInto, Check, Compiles, LastInPlace, PlacedProds, YieldProds, BuildProds, ShallowProds, Dedupe;
    if ParseGbnf(caps, src) == Ok(g) {
      var ts := Lex(src).value;
      var raw := ParseTokens(caps, ts, |src|).value;
      LexExact(src, ts);
      var ss :| CutsInto(ss, src, ts);
      TableBuilds(caps, ts, |src|, raw);
      var trees :| PlacedProds(trees) && YieldProds(trees) == ts && BuildProds(trees) == Some(raw) && (caps ==> ShallowProds(trees));
      DedupeExact(raw, g);
      CheckExact(g);
      assert Stands(caps, src, ss, trees, raw) && ReducesTo(raw, g);
    }
    if exists ss, trees, raw :: Stands(caps, src, ss, trees, raw) && ReducesTo(raw, g) {
      var ss, trees, raw :| Stands(caps, src, ss, trees, raw) && ReducesTo(raw, g);
      LexExact(src, YieldProds(trees));
      Taken(caps, YieldProds(trees), |src|, trees, raw);
      DedupeExact(raw, g);
      CheckExact(g);
    }
  }
}
