/** Options, results, and the number spellings that GBNF text and emitted class patterns use.
    Text is a sequence of Unicode scalar values (Dafny's `char`). */
module Text {

  datatype Option<+T> = None | Some(value: T)

  datatype Result<+T, +E> = Ok(value: T) | Err(error: E)

  /** Put `xs` before what a later step produced, unless that step failed. */
  function Prepend<T>(xs: seq<T>, r: Option<seq<T>>): (p: Option<seq<T>>) {
    match r case None => None case Some(ys) => Some(xs + ys)
  }

  lemma PrependNothing<T>(r: Option<seq<T>>)
    ensures Prepend([], r) == r
  {
    if r.Some? { assert [] + r.value == r.value; }
  }

  lemma PrependTwice<T>(xs: seq<T>, ys: seq<T>, r: Option<seq<T>>)
    ensures Prepend(xs, Prepend(ys, r)) == Prepend(xs + ys, r)
  {
    if r.Some? { assert xs + (ys + r.value) == (xs + ys) + r.value; }
  }

  lemma Assoc<T>(a: seq<T>, b: seq<T>, c: seq<T>)
    ensures a + (b + c) == (a + b) + c
  {
  }

  /** One character, then `d`, then `r`: the slices a reader takes of it. */
  lemma Slices(c: string, d: string, r: string)
    requires |c| == 1
    ensures (c + (d + r))[0] == c[0] && (c + (d + r))[1..] == d + r
    ensures (c + (d + r))[1..1 + |d|] == d && (c + (d + r))[1 + |d|..] == r
  {
    var all := c + (d + r);
    assert forall i :: 0 <= i < |d| + |r| ==> all[1 + i] == (d + r)[i];
  }

  const MAX_CP: int := 0x10FFFF

  /** A code point, surrogates included: what an escape can name. */
  type CodePoint = n: int | 0 <= n <= 0x10FFFF witness 0

  predicate IsSurrogate(cp: int) { 0xD800 <= cp <= 0xDFFF }

  /** A code point that is a character of its own. */
  predicate IsScalar(cp: int) { 0 <= cp <= MAX_CP && !IsSurrogate(cp) }

  function Pow(b: nat, e: nat): (r: nat) {
    if e == 0 then 1 else b * Pow(b, e - 1)
  }

  // ---- hexadecimal

  predicate IsHex(c: char) {
    '0' <= c <= '9' || 'a' <= c <= 'f' || 'A' <= c <= 'F'
  }

  function HexVal(c: char): (v: nat)
    requires IsHex(c)
    ensures v < 16
  {
    if '0' <= c <= '9' then c as int - '0' as int
    else if 'a' <= c <= 'f' then c as int - 'a' as int + 10
    else c as int - 'A' as int + 10
  }

  function HexDigit(d: nat, upper: bool): (c: char)
    requires d < 16
    ensures IsHex(c) && HexVal(c) == d
  {
    if d < 10 then ('0' as int + d) as char
    else if upper then ('A' as int + (d - 10)) as char
    else ('a' as int + (d - 10)) as char
  }

  predicate AllHex(s: string) {
    forall i :: 0 <= i < |s| ==> IsHex(s[i])
  }

  /** The number a run of hexadecimal digits names; the empty run names zero. */
  function ParseHex(s: string): (v: nat)
    requires AllHex(s)
  {
    if s == "" then 0 else ParseHex(s[..|s| - 1]) * 16 + HexVal(s[|s| - 1])
  }

  /** `n` in exactly `w` digits, the low ones: zero-padded when `n` is short. */
  function FixedHex(n: nat, w: nat, upper: bool): (s: string)
    ensures |s| == w && AllHex(s)
  {
    if w == 0 then "" else FixedHex(n / 16, w - 1, upper) + [HexDigit(n % 16, upper)]
  }

  /** `n` without padding. */
  function MinHex(n: nat, upper: bool): (s: string)
    ensures |s| > 0 && AllHex(s)
  {
    if n < 16 then [HexDigit(n, upper)] else MinHex(n / 16, upper) + [HexDigit(n % 16, upper)]
  }

  lemma {:induction false} FixedHexReads(n: nat, w: nat, upper: bool)
    requires n < Pow(16, w)
    ensures ParseHex(FixedHex(n, w, upper)) == n
  {
    if w != 0 {
      FixedHexReads(n / 16, w - 1, upper);
      var s := FixedHex(n, w, upper);
      assert s[..|s| - 1] == FixedHex(n / 16, w - 1, upper);
    }
  }

  lemma {:induction false} MinHexReads(n: nat, upper: bool)
    ensures ParseHex(MinHex(n, upper)) == n
  {
    var s := MinHex(n, upper);
    if n < 16 {
      assert s[..|s| - 1] == "";
    } else {
      MinHexReads(n / 16, upper);
      assert s[..|s| - 1] == MinHex(n / 16, upper);
    }
  }

  lemma HexPowers()
    ensures Pow(16, 2) == 0x100 && Pow(16, 4) == 0x10000 && Pow(16, 8) == 0x1_0000_0000
  {
    assert Pow(16, 1) == 16;
    assert Pow(16, 3) == 0x1000;
    assert Pow(16, 5) == 0x100000;
    assert Pow(16, 6) == 0x1000000;
    assert Pow(16, 7) == 0x10000000;
  }

  // ---- decimal

  predicate IsDigit(c: char) { '0' <= c <= '9' }

  predicate AllDigits(s: string) {
    forall i :: 0 <= i < |s| ==> IsDigit(s[i])
  }

  function ParseDec(s: string): (v: nat)
    requires AllDigits(s)
  {
    if s == "" then 0 else ParseDec(s[..|s| - 1]) * 10 + (s[|s| - 1] as int - '0' as int)
  }

  function Dec(n: nat): (s: string)
    ensures |s| > 0 && AllDigits(s)
  {
    if n < 10 then [('0' as int + n) as char] else Dec(n / 10) + [('0' as int + n % 10) as char]
  }

  lemma {:induction false} DecReads(n: nat)
    ensures ParseDec(Dec(n)) == n
  {
    var s := Dec(n);
    if n < 10 {
      assert s[..|s| - 1] == "";
    } else {
      DecReads(n / 10);
      assert s[..|s| - 1] == Dec(n / 10);
    }
  }

  // ---- runs of characters

  /** How many leading characters satisfy `p`. */
  function RunLength(s: string, p: char -> bool): (n: nat)
    ensures n <= |s|
    ensures forall i :: 0 <= i < n ==> p(s[i])
    ensures n < |s| ==> !p(s[n])
  {
    if s == "" || !p(s[0]) then 0 else 1 + RunLength(s[1..], p)
  }

  lemma {:induction false} RunLengthIs(s: string, rest: string, p: char -> bool)
    requires forall i :: 0 <= i < |s| ==> p(s[i])
    requires rest == "" || !p(rest[0])
    ensures RunLength(s + rest, p) == |s|
  {
    var t := s + rest;
    assert forall i :: 0 <= i < |s| ==> t[i] == s[i];
    assert rest != "" ==> t[|s|] == rest[0];
  }
}
