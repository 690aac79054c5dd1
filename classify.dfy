/**
 * Classification of the text left after flags and modifier: an arbitrary
 * property `[name:value]`, else an arbitrary value `name-[value]`, else a plain
 * utility. No `type:value` tag is split off an arbitrary value.
 */
module Classify {
  import opened Wrappers
  import opened Scan
  import opened Syntax

  /** A character of the class `[a-zA-Z0-9-_]`. */
  predicate IsPropertyNameChar(c: char) {
    ('a' <= c <= 'z') || ('A' <= c <= 'Z') || ('0' <= c <= '9') || c == '-' || c == '_'
  }

  /** `name` matches `[a-zA-Z0-9-_]+`. */
  predicate IsPropertyName(name: string) {
    |name| > 0 && forall k :: 0 <= k < |name| ==> IsPropertyNameChar(name[k])
  }

  /** `value` matches `\S+`. */
  predicate IsPropertyValue(value: string) {
    |value| > 0 && NoWhitespace(value)
  }

  /** The end of the run of property-name characters that starts at `i`. */
  function NameRunEnd(s: string, i: nat): (j: nat)
    requires i <= |s|
    ensures i <= j <= |s|
    ensures forall k :: i <= k < j ==> IsPropertyNameChar(s[k])
    ensures j < |s| ==> !IsPropertyNameChar(s[j])
    decreases |s| - i
  {
    if i == |s| || !IsPropertyNameChar(s[i]) then i else NameRunEnd(s, i + 1)
  }

  /**
   * `parseArbitraryProperty`: the match of `^\[([a-zA-Z0-9-_]+):(\S+)\]$`. The
   * name cannot hold `:`, so it runs up to the first `:`; the value is everything
   * from there to the final `]`.
   */
  function ParseArbitraryProperty(s: string): (r: Option<(string, string)>)
    ensures r.Some? ==>
      s == "[" + r.value.0 + ":" + r.value.1 + "]" &&
      IsPropertyName(r.value.0) && IsPropertyValue(r.value.1)
  {
    if |s| == 0 || s[0] != '[' || s[|s| - 1] != ']' then None
    else
      var c := NameRunEnd(s, 1);
      if c == 1 || c + 2 >= |s| || s[c] != ':' then None
      else
        var value := s[c + 1..|s| - 1];
        if NoWhitespace(value) then
          assert s == "[" + s[1..c] + ":" + value + "]";
          Some((s[1..c], value))
        else None
  }

  /** Every `[name:value]` of the right shape is parsed back into its parts. */
  lemma ArbitraryPropertyRoundTrip(name: string, value: string)
    requires IsPropertyName(name) && IsPropertyValue(value)
    ensures ParseArbitraryProperty("[" + name + ":" + value + "]") == Some((name, value))
  {
    var s := "[" + name + ":" + value + "]";
    var c := |name| + 1;
    forall k | 1 <= k < c ensures IsPropertyNameChar(s[k]) {
      assert s[k] == name[k - 1];
    }
    assert s[c] == ':';
    var e := NameRunEnd(s, 1);
    assert e == c;
    assert s[1..c] == name && s[c + 1..|s| - 1] == value;
  }

  /** `-[` starts at position `i` of `s`. */
  predicate DashBracketAt(s: string, i: nat) {
    i + 1 < |s| && s[i] == '-' && s[i + 1] == '['
  }

  predicate NoDashBracket(s: string) {
    forall i :: 0 <= i < |s| ==> !DashBracketAt(s, i)
  }

  /** `s.indexOf('-[', i)`, with `|s|` for "not found". */
  function IndexOfDashBracket(s: string, i: nat): (j: nat)
    requires i <= |s|
    ensures i <= j <= |s|
    ensures forall k :: i <= k < j ==> !DashBracketAt(s, k)
    ensures j < |s| ==> DashBracketAt(s, j)
    decreases |s| - i
  {
    if i == |s| || DashBracketAt(s, i) then i else IndexOfDashBracket(s, i + 1)
  }

  /**
   * `parseArbitraryValue`: split at the first `-[` when the text ends in `]`;
   * the name is what precedes that `-[` and the value what lies between it and
   * the final `]`.
   */
  function ParseArbitraryValue(s: string): (r: Option<(string, string)>)
    ensures r.None? <==> NoDashBracket(s) || s[|s| - 1] != ']'
    ensures r.Some? ==> s == r.value.0 + "-[" + r.value.1 + "]" && NoDashBracket(r.value.0)
  {
    var i := IndexOfDashBracket(s, 0);
    if i == |s| then None
    else if s[|s| - 1] != ']' then None
    else
      assert s == s[..i] + "-[" + s[i + 2..|s| - 1] + "]";
      assert forall k :: 0 <= k < i ==> (DashBracketAt(s[..i], k) ==> DashBracketAt(s, k));
      Some((s[..i], s[i + 2..|s| - 1]))
  }

  /** Every `name-[value]` whose name holds no `-[` is parsed back into its parts. */
  lemma ArbitraryValueRoundTrip(name: string, value: string)
    requires NoDashBracket(name)
    ensures ParseArbitraryValue(name + "-[" + value + "]") == Some((name, value))
  {
    var s := name + "-[" + value + "]";
    var i := |name|;
    assert DashBracketAt(s, i);
    forall k | 0 <= k < i ensures !DashBracketAt(s, k) {
      if k + 1 < i {
        assert s[k] == name[k] && s[k + 1] == name[k + 1];
        assert !DashBracketAt(name, k);
      } else {
        assert s[k + 1] == '-';
      }
    }
    assert IndexOfDashBracket(s, 0) == i;
    assert s[..i] == name && s[i + 2..|s| - 1] == value;
  }

  /**
   * The classification at the end of `parseStructure`: the three productions
   * tried in priority order, the first that matches wins.
   */
  function ClassifyText(text: string): (k: Kind)
    ensures k.Property? ==>
      text == "[" + k.name + ":" + k.value + "]" && IsPropertyName(k.name) && IsPropertyValue(k.value)
    ensures k.Custom? ==>
      text == k.name + "-[" + k.value + "]" && NoDashBracket(k.name) &&
      ParseArbitraryProperty(text).None?
    ensures k.Utility? ==>
      k.name == text && ParseArbitraryProperty(text).None? &&
      (NoDashBracket(text) || text[|text| - 1] != ']')
  {
    match ParseArbitraryProperty(text)
    case Some((name, value)) => Property(name, value)
    case None =>
      match ParseArbitraryValue(text)
      case Some((name, value)) => Custom(name, value)
      case None => Utility(text)
  }

  /** The text a kind was classified from. */
  function KindText(k: Kind): string
  {
    match k
    case Utility(name) => name
    case Property(name, value) => "[" + name + ":" + value + "]"
    case Custom(name, value) => name + "-[" + value + "]"
  }

  /** Classification keeps the text: the kind's text is exactly what was classified. */
  lemma ClassifyKeepsText(text: string)
    ensures KindText(ClassifyText(text)) == text
  {
  }
}
