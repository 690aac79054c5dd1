/**
 * Character classes and left-to-right scans that stand in for the regular
 * expressions of the candidate parser.
 */
module Scan {

  /** A character of the class `[\[\]]`. */
  predicate IsBracket(c: char) {
    c == '[' || c == ']'
  }

  /** True when `s` has no `[` and no `]`, i.e. it matches `[^\[\]]*`. */
  predicate BracketFree(s: string) {
    forall k :: 0 <= k < |s| ==> !IsBracket(s[k])
  }

  /** The whitespace class `\s` of JavaScript regular expressions. */
  predicate IsWhitespace(c: char) {
    ('\t' <= c <= '\r') || c == ' ' || c == '\U{00A0}' || c == '\U{1680}' ||
    ('\U{2000}' <= c <= '\U{200A}') || c == '\U{2028}' || c == '\U{2029}' ||
    c == '\U{202F}' || c == '\U{205F}' || c == '\U{3000}' || c == '\U{FEFF}'
  }

  /** True when `s` matches `\S*`. */
  predicate NoWhitespace(s: string) {
    forall k :: 0 <= k < |s| ==> !IsWhitespace(s[k])
  }

  /** The position of the first `[` or `]` at or after `i`, or `|s|` when there is none. */
  function FirstBracketFrom(s: string, i: nat): (j: nat)
    requires i <= |s|
    ensures i <= j <= |s|
    ensures forall k :: i <= k < j ==> !IsBracket(s[k])
    ensures j < |s| ==> IsBracket(s[j])
    decreases |s| - i
  {
    if i == |s| || IsBracket(s[i]) then i else FirstBracketFrom(s, i + 1)
  }

  /** The first-bracket scan does not depend on what lies before the scanned suffix. */
  lemma FirstBracketShift(s: string, m: nat, i: nat)
    requires m + i <= |s|
    ensures FirstBracketFrom(s[m..], i) + m == FirstBracketFrom(s, m + i)
  {
    assert forall k :: m <= k < |s| ==> s[m..][k - m] == s[k];
  }

  /** The scan finds the end of a bracket-free run that is followed by a bracket or the end. */
  lemma FirstBracketOfRun(s: string, i: nat, j: nat)
    requires i <= j <= |s|
    requires BracketFree(s[i..j])
    requires j < |s| ==> IsBracket(s[j])
    ensures FirstBracketFrom(s, i) == j
  {
    assert forall k :: i <= k < j ==> s[i..j][k - i] == s[k];
  }

  /** A bracket found inside `a` is found at the same place once text is appended. */
  lemma FirstBracketOfPrefix(a: string, b: string, i: nat)
    requires i <= |a| && FirstBracketFrom(a, i) < |a|
    ensures FirstBracketFrom(a + b, i) == FirstBracketFrom(a, i)
  {
    var j := FirstBracketFrom(a, i);
    assert (a + b)[i..j] == a[i..j];
    FirstBracketOfRun(a + b, i, j);
  }
}
