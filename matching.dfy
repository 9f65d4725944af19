/**
 * The fragment of Python's regular expressions that the core's patterns use:
 * a character class repeated greedily, a literal, and the `$` anchor.
 * Every class here excludes the characters that follow it in the patterns
 * ('-', '/', '\n'), so the greedy run is the only length a backtracking
 * matcher could succeed with; the patterns are therefore modelled by the
 * greedy run alone.
 */
module Matching {
  import opened Text

  datatype CharClass =
    | UsernameChars   // [a-z0-9\-]
    | WordOrDash      // [\w\-]
    | Alnum           // [0-9A-Za-z]

  predicate InClass(c: char, cls: CharClass) {
    match cls
    case UsernameChars => IsAsciiLower(c) || IsDigit(c) || c == '-'
    case WordOrDash => IsAsciiAlnum(c) || c == '_' || c == '-'
    case Alnum => IsAsciiAlnum(c)
  }

  predicate AllIn(s: string, cls: CharClass) {
    forall i :: 0 <= i < |s| ==> InClass(s[i], cls)
  }

  /** The length of the longest run of `cls` characters starting at `i`: what `[...]+` or `[...]*` consumes. */
  function Span(s: string, i: nat, cls: CharClass): (k: nat)
    requires i <= |s|
    ensures i + k <= |s|
    ensures forall j :: i <= j < i + k ==> InClass(s[j], cls)
    ensures i + k == |s| || !InClass(s[i + k], cls)
    decreases |s| - i
  {
    if i == |s| || !InClass(s[i], cls) then 0 else 1 + Span(s, i + 1, cls)
  }

  /** The run is determined by its two defining properties. */
  lemma SpanIs(s: string, i: nat, cls: CharClass, k: nat)
    requires i + k <= |s|
    requires forall j :: i <= j < i + k ==> InClass(s[j], cls)
    requires i + k == |s| || !InClass(s[i + k], cls)
    ensures Span(s, i, cls) == k
  {
  }

  /** Python's `$` at position `i`: the end of the string, or just before a final newline. */
  predicate EndAt(s: string, i: nat) {
    i == |s| || (i + 1 == |s| && s[i] == '\n')
  }

  /** The literal `lit` occurs in `s` at position `i`. */
  predicate LiteralAt(s: string, i: nat, lit: string) {
    i + |lit| <= |s| && s[i..i + |lit|] == lit
  }
}
