/**
 * `parseModifiers`: the match of `/\/\[([^\[\]]+)\]|\/([^\[\]]+)$/` against the
 * text left after the flags. A match is sought at each position from the left,
 * the bracketed alternative first; only the bare alternative is anchored at the
 * end, so text after a bracketed modifier's `]` is dropped.
 */
module Modifiers {
  import opened Wrappers
  import opened Scan
  import opened Syntax

  /** The alternative `\/\[([^\[\]]+)\]` matches at `p`. */
  predicate BracketedModifierAt(s: string, p: nat) {
    p + 2 < |s| && s[p] == '/' && s[p + 1] == '[' &&
    var q := FirstBracketFrom(s, p + 2);
    p + 2 < q < |s| && s[q] == ']'
  }

  /** The alternative `\/([^\[\]]+)$` matches at `p`. */
  predicate BareModifierAt(s: string, p: nat) {
    p + 1 < |s| && s[p] == '/' && FirstBracketFrom(s, p + 1) == |s|
  }

  predicate ModifierAt(s: string, p: nat) {
    BracketedModifierAt(s, p) || BareModifierAt(s, p)
  }

  /** The leftmost position at or after `i` where the pattern matches, or `|s|`. */
  function FirstModifierFrom(s: string, i: nat): (p: nat)
    requires i <= |s|
    ensures i <= p <= |s|
    ensures forall k :: i <= k < p ==> !ModifierAt(s, k)
    ensures p < |s| ==> ModifierAt(s, p)
    decreases |s| - i
  {
    if i == |s| || ModifierAt(s, i) then i else FirstModifierFrom(s, i + 1)
  }

  /** The text a modifier stands for after the utility name. */
  function ModifierText(m: Modifier): string
  {
    match m
    case PlainModifier(name) => "/" + name
    case CustomModifier(value) => "/[" + value + "]"
  }

  /**
   * `text` and `m` are what the leftmost match of the pattern in `s` yields:
   * `text` is everything before the match, and `m` holds the captured group of
   * the alternative that matched there (the bracketed one has priority).
   */
  predicate IsLeftmostMatch(s: string, text: string, m: Modifier) {
    var p := |text|;
    p < |s| && text == s[..p] && ModifierAt(s, p) &&
    (forall k :: 0 <= k < p ==> !ModifierAt(s, k)) &&
    match m
    case CustomModifier(value) =>
      |value| > 0 && BracketFree(value) && "/[" + value + "]" <= s[p..]
    case PlainModifier(name) =>
      !BracketedModifierAt(s, p) && |name| > 0 && BracketFree(name) && s == text + "/" + name
  }

  /**
   * `parseModifiers`: `None` when the pattern matches nowhere; otherwise the text
   * before the leftmost match and the modifier that match captured.
   */
  function ParseModifiers(s: string): (r: Option<(string, Modifier)>)
    ensures r.None? <==> forall p :: 0 <= p < |s| ==> !ModifierAt(s, p)
    ensures r.Some? ==> IsLeftmostMatch(s, r.value.0, r.value.1)
  {
    var p := FirstModifierFrom(s, 0);
    if p == |s| then None
    else if BracketedModifierAt(s, p) then
      var q := FirstBracketFrom(s, p + 2);
      var value := s[p + 2..q];
      BracketedCapture(s, p, q);
      Some((s[..p], CustomModifier(value)))
    else
      BareCapture(s, p);
      Some((s[..p], PlainModifier(s[p + 1..])))
  }

  lemma BracketedCapture(s: string, p: nat, q: nat)
    requires BracketedModifierAt(s, p) && q == FirstBracketFrom(s, p + 2)
    ensures BracketFree(s[p + 2..q])
    ensures "/[" + s[p + 2..q] + "]" <= s[p..]
  {
    assert s[p..][..q + 1 - p] == "/[" + s[p + 2..q] + "]";
  }

  lemma BareCapture(s: string, p: nat)
    requires BareModifierAt(s, p)
    ensures BracketFree(s[p + 1..])
    ensures s == s[..p] + "/" + s[p + 1..]
  {
  }

  /** A string without `/` has no modifier. */
  lemma NoSlashNoModifier(s: string)
    ensures '/' !in s ==> ParseModifiers(s).None?
  {
    if '/' !in s {
      forall p | 0 <= p < |s| ensures !ModifierAt(s, p) {
        assert s[p] in s;
      }
    }
  }

  /** No match starts inside a slash-free prefix. */
  lemma NoMatchInSlashFree(s: string, text: string)
    requires text <= s && '/' !in text
    ensures forall k :: 0 <= k < |text| ==> !ModifierAt(s, k)
  {
    forall k | 0 <= k < |text| ensures !ModifierAt(s, k) {
      assert s[k] == text[k] && text[k] in text;
    }
  }

  /** The leftmost match is the first position where the pattern matches. */
  lemma LeftmostMatchAt(s: string, p: nat)
    requires p < |s| && ModifierAt(s, p)
    requires forall k :: 0 <= k < p ==> !ModifierAt(s, k)
    ensures FirstModifierFrom(s, 0) == p
  {
  }

  /** A bare modifier after a slash-free name is parsed back as written. */
  lemma BareModifierRoundTrip(text: string, name: string)
    requires '/' !in text
    requires |name| > 0 && BracketFree(name)
    ensures ParseModifiers(text + "/" + name) == Some((text, PlainModifier(name)))
  {
    var s := text + "/" + name;
    var p := |text|;
    assert s[..p] == text && s[p + 1..] == name;
    FirstBracketOfRun(s, p + 1, |s|);
    assert ModifierAt(s, p) && !BracketedModifierAt(s, p) by {
      assert s[p + 1] == name[0];
    }
    NoMatchInSlashFree(s, text);
    LeftmostMatchAt(s, p);
  }

  /**
   * A bracketed modifier after a slash-free name is parsed back as written;
   * the alternative is not anchored at the end, so any `tail` is dropped.
   */
  lemma BracketedModifierRoundTrip(text: string, value: string, tail: string)
    requires '/' !in text
    requires |value| > 0 && BracketFree(value)
    ensures ParseModifiers(text + "/[" + value + "]" + tail) == Some((text, CustomModifier(value)))
  {
    var s := text + "/[" + value + "]" + tail;
    var p := |text|;
    var q := p + 2 + |value|;
    assert s[..p] == text && s[p + 2..q] == value && s[q] == ']';
    assert s[p] == '/' && s[p + 1] == '[';
    FirstBracketOfRun(s, p + 2, q);
    assert BracketedModifierAt(s, p);
    NoMatchInSlashFree(s, text);
    LeftmostMatchAt(s, p);
  }
}
