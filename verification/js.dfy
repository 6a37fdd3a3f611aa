/** The few pieces of JavaScript value semantics the applet's pipeline relies on:
    `undefined`/`null` versus a value, truthiness, and the string tests it uses. */
module Js {

  /** A value that may be absent; `None` plays the role of JavaScript's `undefined`. */
  datatype Option<+T> = None | Some(value: T)

  /** A settings value as the applet reads it; its only observable property is truthiness
      and, for strings, the text itself. */
  datatype JsValue = Undefined | Null | Bool(b: bool) | Num(n: real) | Str(s: string)

  /** JavaScript's ToBoolean (NaN is not modelled). */
  predicate Truthy(v: JsValue)
  {
    match v
    case Undefined => false
    case Null => false
    case Bool(b) => b
    case Num(n) => n != 0.0
    case Str(s) => |s| > 0
  }

  /** String concatenation with `undefined` on the left, as `undefined + "x"` does it. */
  function Text(s: Option<string>): (r: string)
    ensures s.Some? ==> r == s.value
    ensures s.None? ==> r == "undefined"
  {
    match s
    case Some(t) => t
    case None => "undefined"
  }

  predicate StartsWith(s: string, prefix: string)
  {
    |prefix| <= |s| && s[..|prefix|] == prefix
  }

  predicate EndsWith(s: string, suffix: string)
  {
    |suffix| <= |s| && s[|s| - |suffix|..] == suffix
  }

  /** ASCII lower-casing. A JavaScript regular expression without the `u` flag never folds a
      non-ASCII character onto an ASCII one, so for an all-ASCII pattern this is exactly its
      case-insensitive comparison. */
  function LowerAscii(c: char): char
  {
    if 'A' <= c <= 'Z' then (c as int - 'A' as int + 'a' as int) as char else c
  }

  /** `s[at..at+|word|]` equals `word` ignoring ASCII case; `word` is given in lower case. */
  predicate OccursAtIgnoreCase(s: string, word: string, at: nat)
  {
    at + |word| <= |s| && forall k :: 0 <= k < |word| ==> LowerAscii(s[at + k]) == word[k]
  }

  /** `/word/i.test(s)` for a lower-case ASCII `word`. */
  predicate ContainsIgnoreCase(s: string, word: string)
  {
    exists at | 0 <= at <= |s| :: OccursAtIgnoreCase(s, word, at)
  }

  /** The end of the maximal run of `inRun` characters starting at `i`. */
  function RunEnd(s: string, i: nat, inRun: char -> bool): (j: nat)
    requires i <= |s|
    ensures i <= j <= |s|
    ensures forall k :: i <= k < j ==> inRun(s[k])
    ensures j == |s| || !inRun(s[j])
    decreases |s| - i
  {
    if i == |s| || !inRun(s[i]) then i else RunEnd(s, i + 1, inRun)
  }

  /** A run is maximal in only one place. */
  lemma {:induction false} RunEndUnique(s: string, i: nat, inRun: char -> bool, j: nat)
    requires i <= j <= |s|
    requires forall k :: i <= k < j ==> inRun(s[k])
    requires j == |s| || !inRun(s[j])
    ensures RunEnd(s, i, inRun) == j
    decreases j - i
  {
    if i < j {
      RunEndUnique(s, i + 1, inRun, j);
    }
  }

  predicate IsDigit(c: char)
  {
    '0' <= c <= '9'
  }

  /** The characters `\s` matches in a JavaScript regular expression. */
  predicate IsSpace(c: char)
  {
    c == '\t' || c == '\n' || c == '\U{B}' || c == '\U{C}' || c == '\r' || c == ' '
    || c == '\U{A0}' || c == '\U{1680}' || '\U{2000}' <= c <= '\U{200A}'
    || c == '\U{2028}' || c == '\U{2029}' || c == '\U{202F}' || c == '\U{205F}'
    || c == '\U{3000}' || c == '\U{FEFF}'
  }

  function DigitValue(c: char): (d: nat)
    requires IsDigit(c)
    ensures d <= 9
  {
    c as int - '0' as int
  }
}
