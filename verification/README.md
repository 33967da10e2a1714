# GBNF text and grammar IR, verified

A Dafny model of the GBNF front-end: the lexer and rule table that turn GBNF source into a grammar
IR, the renderer that writes the IR back, and the self-contained algorithms around the pair. The
model follows the TypeScript reference (`ts/src/converter.ts`, `ts/src/render.ts`), and the Rust port
(`rs/src`) where the two differ: Rust's depth limits, its strings of Unicode scalar values, and its
pairing of surrogate escapes. `dafny verify dfyconfig.toml` checks everything.

Text is a sequence of Unicode scalar values (Dafny's `char`). Code that computes is a function; code
that works with cursors, buffers and flags is a method proved against such a function, and the
theorems are about the functions.

## Main results

1. **The rule table reads the documented grammar.** The open/close stack machine accepts exactly the
   token sequences that have a derivation, builds its value, and settles within the engine's step
   budget (`TableProof.TableExact`, `Build.TableBuilds`, `Derivation.DocumentedGrammar`). The tokens
   are those of the one cutting of the source into gaps and texts of the declared shapes, each at its
   greatest extent (`Segments.LexExact`), so what a source is read as is known from the source, the
   derivation and the last definition of each name (`Parsing.ParseExact`).
2. **The depth registers are exact in every state** of an accepted parse whose parentheses balance
   (`Runs.RegistersExact`), and on every run until a parenthesis is abandoned (`Runs.RunKeeps`); the
   n-th parenthesis is opened at rule depth 4n + 1, and the two Rust limits cut exactly what they say
   (`Runs.NestedParenthesis`, `Runs.NestRefusal`, `Runs.RustLimits`, `Limits`).
3. **Rendering, then parsing, is a round trip.** The text of any rendered grammar is read if and only
   if every class text in it decodes, no bounds cross and its references resolve, and what it is read
   as is a function of the grammar (`RoundTrip.ReadsExactly`). That is the grammar's normal form if and
   only if the notation can carry the grammar (`Image.RoundTripExact`), and the grammar itself exactly
   for what parsing produces without a range `x-x` (`FixedPoint.FixedExactly`). Text that is read
   renders again to the same text exactly when no repetition has a shorter spelling and no class is
   read as one with another text (`Stable.TextStable`).
4. **Faithful or refused.** The renderer refuses exactly what the notation cannot write, and names
   something that is there (`Refusal.RefusesExactly`, `Refusal.RefusalNames`). Where it answers, and
   the grammar it writes is carried and its class flags fit, the grammar read from the text accepts
   from `root` what the written one does (`Language.RootedLanguage`), and exactly the strings the
   original accepts from its entry rule when the original's own references resolve
   (`Language.LanguageKept`).
5. The algorithms around the pair: terminal decoding against UTF-16, code-point set algebra in two
   implementations, eager tokenisation, references written back, the cyclic-value guard, the handle
   registry under every interleaving, and the command's argument queue.

## Where the code and its documentation disagree

The model keeps the code as it is. Each of these has an input that shows it (modules `Findings`,
`Registry` and `Args`) and a theorem that says when the code does meet the claim.

- "`parseGbnf(renderGbnf(g))` reproduces `g` exactly" (`ts/src/render.ts:15-19`) fails for a class with a
  range from a character to itself: `[a-a]` comes back as `[a]` (`Findings.DoubledRange`; exact
  condition in `FixedPoint.FixedExactly`).
- "Faithful or refused" (`ts/src/render.ts:20-28`) fails
  - for repetition bounds that cross, which render to text the parser refuses (`Findings.CrossedBounds`;
    exactly when text is read is `RoundTrip.ReadsExactly`);
  - for a group without alternatives, which accepts nothing and is rendered as `()`
    (`Findings.EmptyGroup`), and, in Rust only, for a class of surrogates, whose members have no
    spelling (`Findings.SurrogateClass`): what is read is the normal form exactly under
    `RoundTrip.Carried` (`Image.RoundTripExact`);
  - for a class whose flags the text does not imply, since flags are not written: `[^a]` without `u`
    comes back with it (`Findings.FlagsLost`); a class keeps its meaning exactly when its flags fit
    (`Language.ClassKept`);
  - for a dangling reference to `root` in a grammar without that rule, which the added `root` captures
    (`Findings.DanglingRoot`). The grammar with `root` added is carried there, and comes back as
    written; it is the original that it no longer means. Adding `root` changes what some reference
    stands for exactly when the grammar lacks `root` and refers to it (`Language.RootCaptures`), and
    `RoundTrip.Resolved` of the grammar itself, not of the one that is written, is what rules that out
    (`Language.RootedResolves`).

  `Language.LanguageKept` puts these conditions together. Each is exact for the element it is about,
  but together they are not necessary for the language: what is lost may stand where no string of the
  grammar needs it. Whether it does is equivalence of context-free languages, which no procedure
  decides: with `a ::= … | "y" root` and no `root`, the language is kept exactly when it already
  holds every one of its strings with `y` before it.
- The grammar comment (`ts/src/converter.ts:136-143`) closes every parenthesis. The fallback that ends an
  atom also pops a parenthesis that is never closed, and drops what it holds
  (`Findings.UnclosedParenthesis`); a source is in the documented grammar exactly when it is read and
  its parentheses balance in number (`Derivation.DocumentedGrammar`).
- `freeGrammar` on a handle that has not been issued yet does not spend it: a later load issues the
  handle, and it parses (`Registry.EarlyFree`; exact condition in `Registry.FreeExact`).
- A hyphen inside a group of short options becomes the `--` separator once the group is split
  (`Args.SeparatorInGroup`), and a group after it is no longer its expansion
  (`Args.SeparatorKeepsGroup`). Writing a group out gives the same outcome exactly when the parser
  comes to no separator before it (`Args.GroupExpands`).

As `ts/src/render.ts:47-50` says, the start option is ignored when a grammar has a `root`; the entry
rule of a rendered grammar is `Language.EntryOf`.

## Model

| member | source | states |
|---|---|---|
| Text.FixedHexReads | ts/src/render.ts:70-72 | a number written in fixed-width hexadecimal, as every numeric escape is, reads back as itself |
| Text.MinHexReads | ts/src/converter.ts:837-841 | and so does one written without padding, as `\u{…}` is |
| Text.DecReads | ts/src/render.ts:316-322 | repetition counts written in decimal read back as themselves |
| Spelling.DecodeQuoted | ts/src/render.ts:64-81 | a quoted literal decodes to the text it was written from, for every text |
| Spelling.RenderedClassDecodes | ts/src/render.ts:89-107 | the class text the renderer writes decodes to the class, its equal-ended ranges collapsed |
| Spelling.EmittedReadsBack | ts/src/render.ts:118-191 | the pattern emitted for any class, surrogates and out-of-range numbers included, reads back as that class |
| Spelling.PatternReadable | rs/src/render.rs:168-280 | whatever the pattern reader lists runs upward and fits 32 bits |
| Spelling.ReadClassPatternLoop | rs/src/render.rs:168-280 | the cursor loop pushes exactly the pairs of the class the pattern spells, or fails where it spells none |
| Terminals.DecodeStringLoop | rs/src/terminal.rs:145-175 | the cursor loop decodes a raw literal, surrogate escapes paired, to what the literal denotes, or refuses it |
| Terminals.DecodeClassLoop | rs/src/terminal.rs:200-266 | the cursor loop emits the pattern of exactly the members listed, with the `u` flag exactly when the class is negated or reaches past U+FFFF |
| Meaning.ReadExact | ts/src/converter.ts:686-747 | a character is read, with this code point and this length, exactly where it stands plain, as one of the eight named escapes, or as `x`, `u` or `U` and two, four or eight hexadecimal digits |
| Meaning.LiteralMeans | ts/src/converter.ts:752-762 | however each character is spelled, a literal decodes to their UTF-16 units, in Rust to the text these encode |
| Meaning.ClassMeans | rs/src/terminal.rs:200-266 | however each member is spelled, a class decodes to its members in order: ranges, escapes, a leading caret, a hyphen at the end |
| Decoding.DecodersAgree | rs/src/terminal.rs:145-175 | the Rust decoder answers exactly when the units the TypeScript decoder appends are well-formed UTF-16, and then with their decoding |
| Decoding.Utf16RoundTrip | rs/src/terminal.rs:110-127 | text encoded to UTF-16 decodes to itself |
| Decoding.CharAdvances | ts/src/converter.ts:706-747 | in a terminal the lexer cut, reading a character advances, to a character boundary, never past the delimiter, and a backslash always has its mark |
| Decoding.MemberAdvances | ts/src/converter.ts:793-813 | and so does reading a class member |
| Decoding.DecoderEndsOnDelimiter | ts/src/converter.ts:412-416 | in every string or class token, the decoder finishes exactly on the closing delimiter unless it refuses what stands before |
| Postfix.ApplyPostfixLoop | rs/src/terminal.rs:307-368 | the search loop lowers a run of operators left to right, charging each wrapper to the depth and refusing the one past the limit |
| Postfix.OpsOfText | ts/src/render.ts:316-322 | a run of operators in the renderer's spelling reads back as those operators |
| Postfix.ReadOpExact | ts/src/converter.ts:152-159 | an operator is read exactly where its text stands, with spaces anywhere inside the braces: `{m}` exactly m, `{m,}` m or more, `{m,n}` from m to n |
| Postfix.RunTaken | ts/src/converter.ts:421-424 | what the run matcher takes is operators with spaces only between two |
| Postfix.RunLongest | ts/src/converter.ts:421-424 | and no longer text from there is |
| Postfix.RunMeans | ts/src/converter.ts:847-867 | the search finds in a run the operators it spells, in order, whatever the spaces |
| Postfix.RunOfText | ts/src/converter.ts:421-427 | and the run matcher takes all of it, and nothing after it |
| Lexer.LexLoop | ts/src/converter.ts:379-465 | the lexer's position loop produces the tokens `Lex` gives, or stops where none starts |
| Segments.TokenExact | ts/src/converter.ts:389-429 | the lexer takes exactly the token whose text has the shape of its kind and stands here at its greatest extent |
| Segments.LexExact | ts/src/converter.ts:379-465 | a source has these tokens exactly when it is white space, comments up to the end of their lines, and token texts at their greatest extent, in turn |
| Derivation.ReaderExact | ts/src/converter.ts:136-143 | recursive descent with two tokens of lookahead answers with a derivation exactly when it is one of its input |
| Derivation.Unambiguous | ts/src/converter.ts:215-230 | a token sequence has at most one derivation: the `NM ::=` boundary is exact |
| Derivation.DocumentedGrammar | ts/src/converter.ts:136-143 | a sequence is in the documented grammar exactly when it is read and has as many `)` as `(` |
| Table.Engine.Advance | docs/gbnf-demo.js:34-35 | one engine step on the mutable rule stack, tokens and registers is the step function's |
| Table.Engine.Finish | docs/gbnf-demo.js:34-35 | the driver loop runs the steps of the budget and no more, and answers with the outcome |
| TableProof.TableExact | ts/src/converter.ts:161-373 | on every token sequence the rule table accepts exactly what has a derivation that evaluates, answers with its value, and settles within the step budget |
| Build.TableBuilds | ts/src/converter.ts:161-373 | its answer is the value of the derivation built without registers or limits; with the Rust limits, exactly the shallow derivations are accepted, with the same answer |
| Build.ChargedDepth | rs/src/terminal.rs:307-368 | the depth charged in flight to a run of operators is the depth it builds, and it is refused exactly when it builds deeper |
| Runs.StepKeeps | ts/src/converter.ts:161-373 | every step of every run keeps the shape of the rule stack, the balance of parentheses, and, unless it abandons one, the meaning of the registers |
| Runs.RunKeeps | rs/src/parser_gbnf.rs:209-285 | and so does every run, from any sound state |
| Runs.DepthOfShape | rs/src/parser_gbnf.rs:47-63 | on every well-formed stack a parenthesis costs four rule levels |
| Runs.NestedParenthesis | rs/src/parser_gbnf.rs:47-63 | the n-th nested parenthesis is opened at rule depth 4n + 1 on every run, so the 512-level cap refuses exactly the 128th and deeper |
| Runs.AbandonedIsExcess | ts/src/converter.ts:356-371 | an accepted source abandons as many parentheses as it opens too many |
| Runs.RegistersExact | rs/src/parser_gbnf.rs:301-345 | in every state of an accepted balanced parse NEST is the depth of the element just completed, LEVEL the greatest completed at this group level, and each open parenthesis holds the level around it |
| Runs.RustLimits | rs/src/parser_gbnf.rs:500-546 | on balanced sources Rust refuses beyond TypeScript exactly more than 127 open parentheses and elements more than 130 deep |
| Runs.NestRefusal | rs/src/parser_gbnf.rs:301-345 | on every run, until a parenthesis is abandoned, a step is refused for nesting exactly when the group it closes, or what some prefix of the operators it applies builds, is more than 130 deep |
| Build.TooDeepExact | rs/src/terminal.rs:307-368 | a run of operators is refused for depth exactly when some prefix of it builds an element past the limit |
| Limits.RustWithin | rs/src/parser_gbnf.rs:331-337 | every grammar the Rust front-end hands on has groups at most 127 and elements at most 130 deep |
| Limits.RustReadsBack | rs/src/render.rs:518-580 | Rust reads the text of a rendered grammar exactly when TypeScript does and what is read is within the limits, and reads the same |
| Limits.RustFixedPoint | rs/src/parser_gbnf.rs:301-345 | what Rust reads it reads again from the rendered text: the limits never refuse a grammar they passed |
| Validate.DedupeLoop | ts/src/converter.ts:576-584 | the map and order list hold, for each name in order of first appearance, its last definition |
| Validate.DedupeExact | ts/src/converter.ts:576-584 | the reduced list is the one that holds, for each name in order of first appearance, its last definition |
| Validate.DedupeIdempotent | rs/src/converter.rs:176-194 | reducing twice is reducing once |
| Validate.CheckExact | ts/src/converter.ts:603-678 | validation refuses precisely a tokenizer terminal at any depth, a missing `root`, and a reference at any depth to no rule, and names one that is there |
| FrontEnd.ParseGbnfSteps | ts/src/converter.ts:533-568 | lexing, running the engine, reducing and validating, as the front-end sequences them |
| Parsing.ParseExact | ts/src/converter.ts:533-568 | a source is read as a grammar exactly when it is cut into tokens that derive productions whose last definitions, in the places of the first, compile; in Rust, within the limits |
| Findings.RepeatedRule | ts/src/converter.ts:576-584 | a name defined twice is accepted, and its last definition stands |
| Render.InsensitiveFragmentsLoop | ts/src/render.ts:212-238 | the chunk loop splits a folded literal into letters and caseless runs, or refuses its first other cased character |
| Render.NamesPass | ts/src/render.ts:384-407 | names pass exactly when all are legal and distinct |
| Render.RenderGbnfLoop | ts/src/render.ts:378-426 | the loops over names and productions give the rendered text or the first refusal |
| Refusal.RefusesExactly | rs/src/render.rs:367-580 | the renderer answers exactly for legal distinct names, a root or defined start, and nothing at any depth that the notation cannot write |
| Refusal.RefusalNames | ts/src/render.ts:263-426 | a refusal names something that is there: a name that is not legal or not the only one, a missing start, or an element of the rule it names that the notation cannot write |
| Printed.EscapeCase | ts/src/converter.ts:837-841 | an emitted pattern spells hexadecimal in lower case, rendered text in upper case |
| Printed.LiteralVerbatim | ts/src/render.ts:60-81 | a literal is written as it stands exactly when it holds no quote, backslash or control character |
| Printed.MemberVisible | ts/src/render.ts:83-107 | and a member of a class exactly when the class notation has no use for it and it is neither a control character nor past U+FFFF |
| Printed.RenderedVisible | ts/src/render.ts:409-426 | rendered text is a line for every production, after one for an added `root`, each ended by a line feed and free of control characters |
| Spelled.ProdsLexes | ts/src/converter.ts:396-445 | the lexer undoes the spelling of every derivation whose terminals are spelled as the renderer spells them |
| Plan.ElementSpells | ts/src/render.ts:263-350 | an element's rendered text is the spelling of its plan, and its form tells one element from several |
| Reading.ElementReads | ts/src/render.ts:263-350 | that plan is a closed derivation for every rendered element; it has a value exactly when every class text in it decodes and no bounds cross, and then the value is what the element is read as |
| Reading.SpelledParses | ts/src/converter.ts:533-568 | the text of a spelled derivation lexes to its tokens and parses to its value |
| Normal.SaneReads | ts/src/render.ts:15-28 | an element the notation can carry is read as its normal form |
| RoundTrip.ReadsExactly | ts/src/render.ts:15-28 | the text of a rendered grammar is read if and only if every class text in it decodes, no bounds cross and its references resolve, and then as `ReadProds` of the grammar |
| RoundTrip.RenderedText | ts/src/render.ts:378-426 | the rendered grammar is the spelling of its plan, `root` added where it is missing |
| RoundTrip.RendersAndReads | ts/src/render.ts:15-19 | the text of a grammar the notation carries parses to the grammar's normal form |
| Image.ParsesCanonical | ts/src/converter.ts:533-568 | everything the front-end hands on is canonical: decoded literals, emitted classes with their flags, legal names, no collapsible or crossing bounds, validated |
| Image.RoundTripExact | ts/src/render.ts:15-28 | a rendered grammar reads back as its normal form if and only if alternatives exist, classes name characters, bounds do not cross and references resolve |
| FixedPoint.Reproduces | ts/src/render.ts:15-19 | a parsed grammar is never refused, and its text parses to it with its ranges tightened: to itself exactly without a range `x-x` |
| FixedPoint.FixedExactly | ts/src/render.ts:15-19 | rendering then parsing is the identity on exactly the grammars parsing produces that hold no range `x-x` |
| Stable.TextStable | ts/src/render.ts:303-324 | text that is read renders again to the same text exactly when no repetition is `{1}`, `{0,1}`, `{0,}` or `{1,}` and no class is read as one with another text |
| Language.PiecesIn | ts/src/render.ts:212-238 | a folded literal matches what the literal matches without regard to ASCII case, section 2.3 of RFC 5234 |
| Language.ReadOneExact | rs/src/render.rs:168-280 | a pattern's character is read exactly where it stands plain, as a named escape, by itself after a backslash, or by its digits |
| Language.ShorthandMatches | ts/src/converter.ts:322-328 | a class of two shorthands matches white space, everything else, or both, as they say |
| Language.AnyMatches | ts/src/converter.ts:322-328 | so `.`, lowered to both, matches every character |
| Units.BracedByLetters | ts/src/converter.ts:817-841 | why the decoder sets `u`: without it a braced escape lists its own letters |
| Units.RangeByUnits | ts/src/converter.ts:817-841 | and a range up to a character past U+FFFF ends at the first of its two units |
| Language.DecodedFlagsFit | ts/src/converter.ts:817-833 | the flags the decoder sets fit: a class without `u` matches nothing past U+FFFF |
| Language.ClassKept | ts/src/render.ts:240-261 | the class read back matches the same characters exactly when the flags fit |
| Language.PlainFlagsFit | ts/src/render.ts:240-261 | without `\u{…}` or characters past U+FFFF in the pattern, flags fit exactly when they hold `u` or the class matches nothing past U+FFFF |
| Language.NormIn | ts/src/render.ts:263-366 | the normal form of an element matches what the element matches, at every expansion depth |
| Language.RootCaptures | ts/src/render.ts:409-419 | adding `root` changes what some reference stands for exactly when the grammar lacks `root` and refers to it |
| Language.RootedResolves | ts/src/render.ts:409-419 | a grammar's references resolve exactly when those of the written grammar do and none is captured |
| Language.RootedAccepts | ts/src/render.ts:409-419 | where no reference is captured, the added `root` stands for the start rule and changes nothing else |
| Language.RootedLanguage | ts/src/render.ts:20-28 | where the written grammar is carried and its flags fit, the grammar read from the text accepts from `root` exactly what the written one does |
| Language.LanguageKept | ts/src/render.ts:20-28 | the grammar read from the rendered text accepts from `root` exactly the strings the original accepts from its entry rule |
| Findings.UnclosedBuildsNothing | ts/src/converter.ts:356-371 | whatever stands in a parenthesis that is never closed builds nothing |
| Findings.UnclosedParenthesis | ts/src/converter.ts:356-371 | `root ::= ("a"` is accepted, as a root with an empty alternative |
| Findings.DoubledRange | ts/src/render.ts:255-258 | `[a-a]` does not come back from rendering |
| Findings.CrossedBounds | ts/src/render.ts:303-324 | crossing bounds render to text that is refused |
| Findings.SurrogateClass | rs/src/render.rs:128-150 | the class of all surrogates renders as the class of a hyphen |
| Findings.SurrogateTextChanges | rs/src/render.rs:128-150 | and what is read from that text renders as another text |
| Findings.FlagsLost | ts/src/render.ts:240-261 | `[^a]` without `u` comes back matching every character past U+FFFF, none of which it matched |
| Findings.EmptyGroup | ts/src/render.ts:294-298 | a group without alternatives comes back accepting the empty string |
| Findings.DanglingRoot | ts/src/render.ts:409-419 | a dangling reference to `root` is captured by the added rule: the written grammar is carried, and accepts more strings than the original |
| Spans.CpOrder | ts/src/translate.ts:880-886 | comparing three bytes from the top orders code points as their numbers |
| Spans.CpNext | ts/src/translate.ts:898-906 | the carried successor is the next number |
| Spans.FromHexValue | ts/src/translate.ts:859-878 | one to six hexadecimal digits name, as three bytes, the number they name |
| Spans.SortedExact | ts/src/translate.ts:962-964 | sorting by rank orders ranges by their low ends and keeps each one |
| Spans.CpMax | ts/src/translate.ts:908-909 | the code point that none exceeds is in the list and above all of it |
| Spans.MergedExact | ts/src/translate.ts:945-960 | merging by blocks gives a sorted, disjoint, non-touching list of the same code points |
| Spans.CanonUnique | ts/src/translate.ts:945-947 | there is one such list for each set |
| Spans.SameExact | ts/src/translate.ts:966-969 | merged lists compare equal exactly when the lists hold the same code points |
| Spans.TileExact | ts/src/translate.ts:971-982 | two lists tile exactly when every code point is in one of them and in one only |
| Ranges.NormalizeRanges | ts/src/converter.ts:1033-1044 | the merging loop gives the one tidy list of the set, the list the declarative library gives |
| Ranges.TidyUnique | ts/src/converter.ts:1030-1032 | there is one tidy list of number pairs for each set |
| Ranges.ComplementRanges | ts/src/converter.ts:1046-1055 | the loop collects the gaps of its list up to the last code point |
| Ranges.ComplementExact | ts/src/converter.ts:1046-1055 | the complement holds exactly the code points the list does not, as a tidy list |
| Ranges.ComplementTwice | rs/src/converter.rs:508-521 | taking the complement twice gives the list back |
| Ranges.ComplementTiles | ts/src/translate.ts:971-982 | a list and its complement pass the declarative tiling test |
| Ranges.RangesIntersect | ts/src/converter.ts:1057-1066 | the two-cursor loop answers whether some code point is in both lists |
| Ranges.RangesContain | ts/src/converter.ts:1068-1074 | the search answers whether the list holds the code point |
| Eager.EmittedClassRanges | rs/src/converter.rs:554-608 | reading an emitted pattern gives the tidy list of the code points its class holds, complemented when negated |
| Eager.EmittedExact | rs/src/converter.rs:549-608 | an emitted pattern is read exactly as what it spells: `.`'s, or a bracketed list of `\u` escapes and ranges between two |
| Eager.ClassMeaning | ts/src/converter.ts:817-841 | for every raw class that decodes, both readers of the emitted pattern and its meaning as an expression agree with the class, for every character |
| Eager.CollectTerminals | ts/src/converter.ts:1129-1162 | each distinct class pattern once with its code points, every literal's first character, and whether all patterns were readable |
| Eager.ApartFromRest | rs/src/converter.rs:751-762 | one class is apart from the later ones and from every literal's head |
| Eager.LeavesProdsExact | ts/src/converter.ts:1129-1162 | the terminals walked are exactly the classes and literals that stand in the grammar, at any depth |
| Eager.MarkClassesEager | ts/src/converter.ts:1168-1204 | where every class in the grammar has its ranges in order it answers true exactly when there are matchers, each for a class of the grammar, no character is in two classes and none that starts a literal is in any; if it does every matcher is flagged, otherwise none is touched |
| Eager.LexAtExact | ts/src/converter.ts:992-1017 | a token is the first class matcher that fires and is offered or eager, or else the longest literal |
| Eager.EagerSafe | ts/src/converter.ts:1009-1026 | after that the ungated lexer returns every token the gated one returns, whatever is expected; the classes that fire at a character have one source, and none fires where a literal matches |
| Eager.ParsedClasses | ts/src/converter.ts:1077-1084 | every class of a parsed grammar is read back, with its ranges in order, and spelled and flagged as the decoder emits it |
| Eager.ParsedEager | ts/src/converter.ts:1168-1242 | for a grammar the front-end handed on and tokens made from it, the answer is true exactly when classes and literals are separate, and then dropping the gate changes no token |
| Unsub.JoinedInjective | ts/src/translate.ts:1575-1582 | keys joined by the separator tell plain keys apart |
| Unsub.PrefixTailExact | ts/src/translate.ts:1575-1582 | a tail is found exactly when the alternative is the candidate's keys followed by it |
| Unsub.CandAtExact | ts/src/translate.ts:1597-1606 | a candidate is chosen exactly where one stands, and none that stands there has more alternatives |
| Unsub.RunsApart | ts/src/translate.ts:1613-1625 | accepted runs never overlap |
| Unsub.MatchesExact | ts/src/translate.ts:1584-1590 | comparing joined keys finds a candidate exactly where its alternatives stand, each before one same tail |
| Unsub.UnsubExact | ts/src/translate.ts:1608-1634 | a reference is written back exactly where a candidate stands and none standing earlier goes over, to the first of those with the most alternatives; nothing is where that would leave one reference alone |
| Unsub.UnsubExpands | ts/src/translate.ts:1608-1634 | expanding each reference written back into its candidate's alternatives, before their common tail, gives the original alternatives in order, none lost or repeated |
| Walk.Walker.Visit | go/clib/core.go:345-405 | the walk leaves the path set as it found it and reports what the specification reports, for any finite, possibly cyclic value |
| Walk.GuardExact | go/clib/core.go:300-490 | a value passes exactly when every way down from it ends in clean parts and meets no container twice; a cycle is reported only where some way down does meet one twice, bad text or a big number only where one stands at the end of a way down that does not |
| Walk.FreshMeans | go/clib/core.go:326-401 | a way down is fresh exactly when it avoids the path and repeats no container |
| Registry.RunKeeps | go/clib/core.go:50-74 | every interleaving of load, parse and free keeps the locks, the table, the counter and each thread's place consistent |
| Registry.HandlesOnce | go/clib/core.go:191-197 | no two loads are answered with the same handle |
| Registry.WriterAlone | go/clib/core.go:61-65 | a thread that writes the table is alone with it |
| Registry.OneParseInside | go/clib/core.go:50-60 | two parses are never inside one instance at once |
| Registry.LookupExact | go/clib/core.go:231-237 | a lookup finds its instance exactly when the handle was issued and no free has deleted it |
| Registry.LookupAnswered | go/clib/core.go:231-237 | however the others go on, a parse of a handle never issued or freed is answered that the handle is bad, and any other waits for the instance the handle was issued with |
| Registry.OwnInstance | go/clib/core.go:191-197 | no two handles are issued with one instance |
| Registry.GoneForGood | go/clib/core.go:505-509 | an issued handle that is freed stays freed |
| Registry.ParseFinishes | go/clib/core.go:231-255 | a parse past its lookup is moved by no other thread, waits only for its own instance, and answers from it, whatever has become of its handle |
| Registry.FreeExact | go/clib/core.go:505-509 | a free spends its handle exactly when it has been issued, and touches no other entry |
| Registry.EarlyFree | go/clib/core.go:505-509 | handle 1 freed before any load is issued by the first load, and parses |
| Args.GroupShrinks | rs/src/cli.rs:280-296 | splitting a group makes the queue lighter, so the parser ends on every argument vector |
| Args.SplitLoop | rs/src/cli.rs:280-292 | the loop splits a group into one short option a token, up to one that takes the rest for its value |
| Args.ParseArgsLoop | rs/src/cli.rs:211-303 | the queue loop gives the options, positionals or error of the specification |
| Args.TextRecorded | rs/src/cli.rs:308-350 | `--text=v`, `-tv`, `--text v` and `-t v` record exactly `v`; one of its own that starts with a hyphen, or none, is refused |
| Args.SwitchRecorded | rs/src/cli.rs:308-335 | each switch by either name adds itself and nothing else, and with a value is refused |
| Args.UnknownRefused | rs/src/cli.rs:235-247 | any other name is refused, with a value or without |
| Args.VectorMeans | rs/src/cli.rs:211-303 | a vector of options, groups and positionals, however each is spelled, records them in order; after the separator everything is positional |
| Args.GroupExpands | rs/src/cli.rs:280-296 | writing a group out gives the same flags, positionals or error exactly when the parser comes to no separator before it |
| Args.SeparatorInGroup | rs/src/cli.rs:280-296 | a hyphen in a group acts as the separator |
| Args.SeparatorKeepsGroup | rs/src/cli.rs:280-296 | after it a group is not its expansion: `-q- -vh` differs from `-q- -v -h` |

## Left out

- Spelling.ReadClassPatternLoop: refuses malformed hexadecimal digits, as Rust does; JavaScript's `parseInt` would accept a numeric prefix.
- Terminals.DecodeClassLoop: refuses surrogate members, as Rust does; the TypeScript decoder admits them.
- Refusal.RefusesExactly: renders a class past U+10FFFF, as Rust does, to text that is refused; the TypeScript renderer throws on it.
- Language.LanguageKept: one way only; the converse is equivalence of context-free languages, which no procedure decides. `u` is the only regex flag given a meaning, and the patterns are `.`'s and those that list characters and ranges, each character as `Language.ReadOneExact` says, `\u{` and astral characters read by units where the flag is missing (`Units`).
- Eager.EagerSafe: two match tokens with one source are one token to it; which of them fires first is not compared.
- Eager.MarkClassesEager: says nothing of its answer for patterns whose ranges descend or leave Unicode, which no parsed grammar holds (`Eager.ParsedClasses`).
- Unsub.UnsubExpands: takes keys without control characters, which the keys the library builds are.
- Lone surrogates in text: raw ones are not characters here; escapes that name one are modelled, and refused as Rust refuses them.
- Repetition counts are natural numbers and infinity, not floating-point numbers.
- A rule's node is held by its parent's frame instead of being shared by reference; pushing into it is the same step.
- Source spans, error wording, and which of several errors in one source is reported first: the model lexes the whole source before the first rule.
- Rust records a decode error and parses on before it reports it; the outcome is the same refusal.
- Which characters outside ASCII have distinct cases is a parameter (`cased`).
- The grammar compiler and parse engine of the other packages, and what the engine accepts at run time; the lexer in `Eager` is only its gate and the order of its matchers.
- The `eagerClasses` option and `clearClassesEager`, and the serialized form of match tokens in the Rust port.
- The rest of the library embedded in `ts/src/translate.ts`, which reads compiled helper rules by naming convention; and how `gbnf-class-hex-spans` splits a pattern.
- The lookup table of hexadecimal digit pairs is read as the number it gives each pair.
- The handle counter is a natural number; a 64-bit one would wrap only after 2^63 loads.
- Panics contained by the Go registry and its walk, reflection, and JSON output.
- The command beyond argument parsing: files, reports, exit codes, `strip_ansi`.
- The plugin facades, the foreign-function layers and packaging would add only easy members.
