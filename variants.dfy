/**
 * Variant splitting: `raw.split(/\<sep>(?![^[]*\])/g)` followed by `parseVariant`
 * on every segment but the last. The regular expression is replaced by an
 * explicit scan for a one-character separator.
 */
module Variants {
  import opened Scan
  import opened Syntax

  /** The lookahead `[^[]*\]` matches at `j`: some `]` follows with no `[` in between. */
  ghost predicate LookaheadCloses(s: string, j: nat) {
    exists e :: j <= e < |s| && s[e] == ']' && forall k :: j <= k < e ==> s[k] != '['
  }

  /** The scanned form of the lookahead: the first bracket at or after `j` is a `]`. */
  predicate ClosesAhead(s: string, j: nat)
    requires j <= |s|
  {
    var f := FirstBracketFrom(s, j);
    f < |s| && s[f] == ']'
  }

  /** The separator at `i` is a split point: `(?![^[]*\])` holds right after it. */
  predicate IsSplitPoint(s: string, sep: char, i: nat)
    requires i < |s|
  {
    s[i] == sep && !ClosesAhead(s, i + 1)
  }

  /** The scan decides exactly the regular expression's lookahead. */
  lemma ClosesAheadIsLookahead(s: string, j: nat)
    requires j <= |s|
    ensures ClosesAhead(s, j) <==> LookaheadCloses(s, j)
  {
    var f := FirstBracketFrom(s, j);
    if LookaheadCloses(s, j) {
      var e :| j <= e < |s| && s[e] == ']' && forall k :: j <= k < e ==> s[k] != '[';
      assert f <= e;
    }
  }

  /** Split points, like the lookahead, depend only on the text to their right. */
  lemma SplitPointShift(s: string, sep: char, m: nat, c: nat)
    requires m + c < |s|
    ensures IsSplitPoint(s[m..], sep, c) <==> IsSplitPoint(s, sep, m + c)
  {
    FirstBracketShift(s, m, c + 1);
  }

  /** The first split point at or after `i`, or `|s|` when there is none. */
  function FirstSplitFrom(s: string, sep: char, i: nat): (j: nat)
    requires i <= |s|
    ensures i <= j <= |s|
    ensures forall k :: i <= k < j ==> !IsSplitPoint(s, sep, k)
    ensures j < |s| ==> IsSplitPoint(s, sep, j)
    decreases |s| - i
  {
    if i == |s| || IsSplitPoint(s, sep, i) then i else FirstSplitFrom(s, sep, i + 1)
  }

  /** The segments of `s` between its split points, left to right. */
  function Split(s: string, sep: char): (segs: seq<string>)
    ensures |segs| >= 1
    decreases |s|
  {
    var j := FirstSplitFrom(s, sep, 0);
    if j == |s| then [s] else [s[..j]] + Split(s[j + 1..], sep)
  }

  /** The inverse of splitting: the segments glued back with the separator. */
  function Join(segs: seq<string>, sep: char): string
  {
    if |segs| == 0 then ""
    else if |segs| == 1 then segs[0]
    else segs[0] + [sep] + Join(segs[1..], sep)
  }

  /** `i` is the position of one of the separators that `Join(segs, _)` inserts. */
  predicate IsCut(segs: seq<string>, i: int)
    decreases |segs|
  {
    |segs| >= 2 && (i == |segs[0]| || IsCut(segs[1..], i - |segs[0]| - 1))
  }

  /** Split round trip: joining the segments with the separator gives back the token. */
  lemma {:induction false} JoinSplit(s: string, sep: char)
    ensures Join(Split(s, sep), sep) == s
    decreases |s|
  {
    var j := FirstSplitFrom(s, sep, 0);
    if j < |s| {
      JoinSplit(s[j + 1..], sep);
      assert s == s[..j] + [sep] + s[j + 1..];
    }
  }

  /**
   * The token is cut exactly at its split points: a separator starts a new
   * segment if and only if the first bracket after it is not a `]`.
   */
  lemma {:induction false} SplitCutsAtSplitPoints(s: string, sep: char)
    ensures forall i :: IsCut(Split(s, sep), i) <==> 0 <= i < |s| && IsSplitPoint(s, sep, i)
    decreases |s|
  {
    var j := FirstSplitFrom(s, sep, 0);
    if j < |s| {
      var t := s[j + 1..];
      SplitCutsAtSplitPoints(t, sep);
      var segs := Split(s, sep);
      assert segs[0] == s[..j] && segs[1..] == Split(t, sep);
      forall i ensures IsCut(segs, i) <==> 0 <= i < |s| && IsSplitPoint(s, sep, i) {
        if i > j && i < |s| {
          SplitPointShift(s, sep, j + 1, i - j - 1);
        }
      }
    }
  }

  /**
   * Every separator inside the segment is followed, within the segment, by a
   * first bracket that is a `]`, so the lookahead rules it out as a split point.
   */
  predicate EnclosesSeparators(seg: string, sep: char) {
    forall k :: 0 <= k < |seg| && seg[k] == sep ==> ClosesAhead(seg, k + 1)
  }

  /**
   * Segments whose separators are all enclosed, each segment after the first
   * starting a text whose first bracket is not a `]`.
   */
  predicate Splittable(segs: seq<string>, sep: char)
    decreases |segs|
  {
    |segs| >= 1 && EnclosesSeparators(segs[0], sep) &&
    (|segs| >= 2 ==> !ClosesAhead(Join(segs[1..], sep), 0) && Splittable(segs[1..], sep))
  }

  /** Split round trip the other way: such segments, joined, split back into themselves. */
  lemma {:induction false} SplitJoin(segs: seq<string>, sep: char)
    requires Splittable(segs, sep)
    ensures Split(Join(segs, sep), sep) == segs
    decreases |segs|
  {
    var s := Join(segs, sep);
    var j := |segs[0]|;
    assert s[..j] == segs[0];
    forall k | 0 <= k < j ensures !IsSplitPoint(s, sep, k) {
      if s[k] == sep {
        assert segs[0][k] == sep;
        FirstBracketOfPrefix(segs[0], s[j..], k + 1);
        assert segs[0] + s[j..] == s;
      }
    }
    if |segs| == 1 {
      assert FirstSplitFrom(s, sep, 0) == |s|;
    } else {
      var t := Join(segs[1..], sep);
      assert s == segs[0] + [sep] + t;
      FirstBracketShift(s, j + 1, 0);
      assert s[j + 1..] == t;
      assert IsSplitPoint(s, sep, j);
      assert FirstSplitFrom(s, sep, 0) == j;
      SplitJoin(segs[1..], sep);
      assert s[..j] == segs[0];
    }
  }

  /** A separator that is no split point is enclosed within the segment it ends up in. */
  lemma EnclosedBeforeSplitPoint(s: string, sep: char, k: nat, j: nat)
    requires !IsBracket(sep) && k < j <= |s| && s[k] == sep && !IsSplitPoint(s, sep, k)
    requires j < |s| ==> IsSplitPoint(s, sep, j)
    ensures ClosesAhead(s[..j], k + 1)
  {
    var f := FirstBracketFrom(s, k + 1);
    if j < |s| && f >= j {
      FirstBracketOfRun(s, j + 1, f);
    }
    assert s[..j][k + 1..f] == s[k + 1..f];
    FirstBracketOfRun(s[..j], k + 1, f);
  }

  /**
   * Splitting produces only splittable lists, for a separator that is not a
   * bracket: with `SplitJoin`, `Splittable` is exactly the image of `Split`.
   */
  lemma {:induction false} SplitIsSplittable(s: string, sep: char)
    requires !IsBracket(sep)
    ensures Splittable(Split(s, sep), sep)
    decreases |s|
  {
    var j := FirstSplitFrom(s, sep, 0);
    var segs := Split(s, sep);
    assert segs[0] == s[..j];
    forall k | 0 <= k < j && s[..j][k] == sep ensures ClosesAhead(s[..j], k + 1) {
      EnclosedBeforeSplitPoint(s, sep, k, j);
    }
    if j < |s| {
      var t := s[j + 1..];
      SplitIsSplittable(t, sep);
      JoinSplit(t, sep);
      assert segs[1..] == Split(t, sep);
      FirstBracketShift(s, j + 1, 0);
    }
  }

  /**
   * Separators inside a final bracket pair with no bracket in between are not
   * split points, so such a token is not split at all.
   */
  lemma EnclosedSeparatorsDoNotSplit(pre: string, inner: string, sep: char)
    requires sep !in pre && sep != '[' && sep != ']' && BracketFree(inner)
    ensures Split(pre + "[" + inner + "]", sep) == [pre + "[" + inner + "]"]
  {
    var s := pre + "[" + inner + "]";
    var n := |pre|;
    forall k | 0 <= k < |s| ensures !IsSplitPoint(s, sep, k) {
      if k < n {
        assert s[k] == pre[k] && pre[k] in pre;
      } else if n < k < |s| - 1 && s[k] == sep {
        assert s[k + 1..|s| - 1] == inner[k - n..];
        FirstBracketOfRun(s, k + 1, |s| - 1);
      }
    }
    assert FirstSplitFrom(s, sep, 0) == |s|;
  }

  /** `parseVariant`: a segment wrapped in brackets becomes a custom variant holding the inside. */
  function ParseVariant(seg: string): (v: Variant)
    ensures v.CustomVariant? <==> |seg| > 0 && seg[0] == '[' && seg[|seg| - 1] == ']'
    ensures VariantText(v) == seg
  {
    if |seg| > 0 && seg[0] == '[' && seg[|seg| - 1] == ']' then
      CustomVariant(seg[1..|seg| - 1])
    else
      PlainVariant(seg)
  }

  /** The text a variant was parsed from. */
  function VariantText(v: Variant): string
  {
    match v
    case PlainVariant(name) => name
    case CustomVariant(value) => "[" + value + "]"
  }

  function ParseVariants(segs: seq<string>): (vs: seq<Variant>)
    ensures |vs| == |segs|
    ensures forall i :: 0 <= i < |segs| ==> vs[i] == ParseVariant(segs[i])
  {
    seq(|segs|, i requires 0 <= i < |segs| => ParseVariant(segs[i]))
  }

  function VariantTexts(vs: seq<Variant>): (segs: seq<string>)
    ensures |segs| == |vs|
    ensures forall i :: 0 <= i < |vs| ==> segs[i] == VariantText(vs[i])
  {
    seq(|vs|, i requires 0 <= i < |vs| => VariantText(vs[i]))
  }

  /** The segments are recovered, in order, from the parsed variants. */
  lemma VariantsRoundTrip(segs: seq<string>)
    ensures VariantTexts(ParseVariants(segs)) == segs
  {
  }
}
