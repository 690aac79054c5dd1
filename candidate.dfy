/**
 * `parseStructure` and `parseRawCandidate`: one raw utility class in, one
 * `Candidate` (or `None` for the source's `null`) out.
 */
module CandidateParser {
  import opened Wrappers
  import opened Syntax
  import opened Variants
  import opened Modifiers
  import opened Classify

  /** The flags read off the front of the base segment, and the text after them. */
  datatype Flags = Flags(important: bool, negative: bool, rest: string)

  function Dashes(n: nat): (s: string)
    ensures |s| == n && forall k :: 0 <= k < n ==> s[k] == '-'
  {
    seq(n, _ => '-')
  }

  predicate StartsWith(s: string, c: char) {
    |s| > 0 && s[0] == c
  }

  /**
   * One leading `!` marks the candidate important; after it, a `-` before the
   * (never stripped) prefix and a `-` after it each mark it negative.
   */
  function StripFlags(base: string): (f: Flags)
    ensures f.important <==> StartsWith(base, '!')
    ensures
      var after := if f.important then base[1..] else base;
      var n := |after| - |f.rest|;
      0 <= n <= 2 && after == Dashes(n) + f.rest && (f.negative <==> n > 0) &&
      (n < 2 ==> !StartsWith(f.rest, '-'))
  {
    var important := StartsWith(base, '!');
    var afterBang := if important then base[1..] else base;
    var negativeBeforePrefix := StartsWith(afterBang, '-');
    var afterFirst := if negativeBeforePrefix then afterBang[1..] else afterBang;
    var negativeAfterPrefix := StartsWith(afterFirst, '-');
    var rest := if negativeAfterPrefix then afterFirst[1..] else afterFirst;
    assert negativeBeforePrefix ==> afterBang == Dashes(1) + afterFirst;
    assert negativeAfterPrefix ==> afterFirst == Dashes(1) + rest;
    assert negativeBeforePrefix && negativeAfterPrefix ==> afterBang == Dashes(2) + rest;
    Flags(important, negativeBeforePrefix || negativeAfterPrefix, rest)
  }

  /** The last segment of the split, which holds the utility itself. */
  function BaseSegment(raw: string, sep: char): string
  {
    var segs := Split(raw, sep);
    segs[|segs| - 1]
  }

  /** Every segment before the last, each parsed as a variant, in written order. */
  function SplitVariants(raw: string, sep: char): (vs: seq<Variant>)
    ensures VariantTexts(vs) + [BaseSegment(raw, sep)] == Split(raw, sep)
    ensures Join(VariantTexts(vs) + [BaseSegment(raw, sep)], sep) == raw
    ensures forall i :: 0 <= i < |vs| ==> vs[i] == ParseVariant(Split(raw, sep)[i])
  {
    var segs := Split(raw, sep);
    var leading := segs[..|segs| - 1];
    JoinSplit(raw, sep);
    VariantsRoundTrip(leading);
    assert segs == leading + [segs[|segs| - 1]];
    ParseVariants(leading)
  }

  /**
   * The modifier step of `parseStructure`: the text before the leftmost
   * modifier match and a one-element list, or the whole text and an empty list.
   */
  function TakeModifier(rest: string): (r: (string, seq<Modifier>))
    ensures r.0 <= rest && |r.1| <= 1
    ensures r.1 == [] <==> r.0 == rest && ParseModifiers(rest).None?
    ensures |r.1| == 1 ==> IsLeftmostMatch(rest, r.0, r.1[0])
    ensures '/' !in rest ==> r == (rest, [])
  {
    NoSlashNoModifier(rest);
    match ParseModifiers(rest)
    case None => (rest, [])
    case Some((text, m)) => (text, [m])
  }

  /**
   * `parseStructure`: split off the variants, strip the flags, take the
   * modifier, classify what is left. The prefix is recorded and nothing else.
   */
  function ParseStructure(raw: string, ctx: Context): (c: Candidate)
    ensures c.raw == raw && c.prefix == ctx.prefix.GetOr("") && |c.modifiers| <= 1
  {
    var flags := StripFlags(BaseSegment(raw, ctx.separator));
    var taken := TakeModifier(flags.rest);
    Candidate(
      raw, ctx.prefix.GetOr(""), flags.important, flags.negative,
      SplitVariants(raw, ctx.separator), taken.1, ClassifyText(taken.0))
  }

  /**
   * The variants of a candidate, written back in order and followed by the
   * base segment, are exactly the segments of the split, so they rebuild the
   * raw token; each variant is `parseVariant` of its segment.
   */
  lemma StructureVariants(raw: string, ctx: Context)
    ensures
      var c := ParseStructure(raw, ctx);
      VariantTexts(c.variants) + [BaseSegment(raw, ctx.separator)] == Split(raw, ctx.separator) &&
      Join(VariantTexts(c.variants) + [BaseSegment(raw, ctx.separator)], ctx.separator) == raw &&
      forall i :: 0 <= i < |c.variants| ==> c.variants[i] == ParseVariant(Split(raw, ctx.separator)[i])
  {
    assert ParseStructure(raw, ctx).variants == SplitVariants(raw, ctx.separator);
  }

  /**
   * The candidate's variants and base are cut at the split points of the raw
   * token and nowhere else.
   */
  lemma StructureCuts(raw: string, ctx: Context)
    ensures
      var segs := VariantTexts(ParseStructure(raw, ctx).variants) + [BaseSegment(raw, ctx.separator)];
      forall i :: IsCut(segs, i) <==> 0 <= i < |raw| && IsSplitPoint(raw, ctx.separator, i)
  {
    StructureVariants(raw, ctx);
    SplitCutsAtSplitPoints(raw, ctx.separator);
  }

  /**
   * The flags are those of the base segment; what follows them is the kind's
   * text, then, when there is one, the leftmost modifier match.
   */
  lemma StructureBase(raw: string, ctx: Context)
    ensures
      var c := ParseStructure(raw, ctx);
      var base := BaseSegment(raw, ctx.separator);
      var rest := StripFlags(base).rest;
      (c.important <==> StartsWith(base, '!')) &&
      c.negative == StripFlags(base).negative &&
      KindText(c.kind) <= rest && c.kind == ClassifyText(KindText(c.kind)) &&
      (c.modifiers == [] <==> KindText(c.kind) == rest && ParseModifiers(rest).None?) &&
      (|c.modifiers| == 1 ==> IsLeftmostMatch(rest, KindText(c.kind), c.modifiers[0])) &&
      ('/' !in rest ==> c.modifiers == [])
  {
    var rest := StripFlags(BaseSegment(raw, ctx.separator)).rest;
    ClassifyKeepsText(TakeModifier(rest).0);
  }

  /**
   * The prefix is inert: two configurations with the same separator give the
   * same candidate up to the recorded prefix.
   */
  lemma PrefixIsInert(raw: string, ctx: Context, other: Context)
    requires ctx.separator == other.separator
    ensures ParseStructure(raw, other) == ParseStructure(raw, ctx).(prefix := other.prefix.GetOr(""))
  {
  }

  /** `isValidPropName`: the name matches `^[a-z_-]`. */
  predicate IsValidPropName(name: string) {
    |name| > 0 && (('a' <= name[0] <= 'z') || name[0] == '_' || name[0] == '-')
  }

  /**
   * A property whose name does not start with a lower-case letter, `_` or `-`
   * is dropped, whatever the collaborators say, although the property pattern
   * admits upper-case letters and digits there.
   */
  lemma InvalidPropNameRejected(c: Candidate, col: Collaborators)
    requires c.kind.Property? && !IsValidPropName(c.kind.name)
    ensures Gate(c, col).None?
  {
  }

  /** `://` starts at position `i` of `s`. */
  predicate SchemeSeparatorAt(s: string, i: nat) {
    i + 2 < |s| && s[i] == ':' && s[i + 1] == '/' && s[i + 2] == '/'
  }

  /** `s.includes('://')`. */
  predicate HasSchemeSeparator(s: string) {
    exists i :: 0 <= i < |s| && SchemeSeparatorAt(s, i)
  }

  /**
   * `looksLikeUri`: no `://` bails out at once; otherwise the declaration parsed
   * as a URL must have a non-empty host. (`url.scheme` is not a URL field, so its
   * test against `''` always passes.) A URL that fails to parse is not URI-like.
   */
  function LooksLikeUri(declaration: string, col: Collaborators): (r: bool)
    ensures r ==> HasSchemeSeparator(declaration)
    ensures r ==> col.urlHost(declaration).Some? && col.urlHost(declaration).value != ""
    ensures (HasSchemeSeparator(declaration) && col.urlHost(declaration).Some? &&
      col.urlHost(declaration).value != "") ==> r
  {
    if !HasSchemeSeparator(declaration) then false
    else
      match col.urlHost(declaration)
      case None => false
      case Some(host) => host != ""
  }

  /**
   * The gates of `parseRawCandidate`, each stated on its own. The `&&` of line 52
   * binds tighter than `||`, so the parsable-value gate applies to every kind.
   */
  predicate PassesGates(c: Candidate, col: Collaborators) {
    (c.kind.Property? ==> IsValidPropName(c.kind.name)) &&
    (c.kind.Property? ==> !LooksLikeUri(c.kind.name + ":" + c.kind.value, col)) &&
    (c.kind.Custom? ==> col.isValidArbitraryValue(c.kind.value)) &&
    col.isParsableCssValue(KindValue(c.kind))
  }

  /** The fields every kind shares are equal. */
  predicate SameCommon(a: Candidate, b: Candidate) {
    a.raw == b.raw && a.prefix == b.prefix && a.important == b.important &&
    a.negative == b.negative && a.variants == b.variants && a.modifiers == b.modifiers
  }

  /**
   * Lines 41-61 of `parseRawCandidate` applied to a parsed structure: `None` when
   * a gate fails, otherwise the candidate with the value of a property or custom
   * kind replaced, in place, by its normalised form.
   */
  function Gate(c: Candidate, col: Collaborators): (r: Option<Candidate>)
    ensures r.Some? <==> PassesGates(c, col)
    ensures r.Some? ==>
      SameCommon(r.value, c) && r.value.kind.name == c.kind.name &&
      (c.kind.Utility? ==> r.value.kind == c.kind) &&
      (c.kind.Property? ==> r.value.kind.Property? && r.value.kind.value == col.normalize(c.kind.value)) &&
      (c.kind.Custom? ==> r.value.kind.Custom? && r.value.kind.value == col.normalize(c.kind.value))
  {
    if c.kind.Property? && !IsValidPropName(c.kind.name) then None
    else if c.kind.Property? && LooksLikeUri(c.kind.name + ":" + c.kind.value, col) then None
    else if (c.kind.Custom? && !col.isValidArbitraryValue(c.kind.value)) || !col.isParsableCssValue(KindValue(c.kind)) then None
    else if c.kind.Custom? || c.kind.Property? then Some(c.(kind := c.kind.(value := col.normalize(c.kind.value))))
    else Some(c)
  }

  /** `parseRawCandidate`: the structure of `raw`, passed through the gates. */
  function ParseRawCandidate(raw: string, ctx: Context, col: Collaborators): (r: Option<Candidate>)
    ensures r.Some? <==> PassesGates(ParseStructure(raw, ctx), col)
    ensures r.Some? ==>
      var c := ParseStructure(raw, ctx);
      SameCommon(r.value, c) && r.value.kind.name == c.kind.name &&
      (c.kind.Utility? ==> r.value.kind == c.kind) &&
      (c.kind.Property? ==> r.value.kind.Property? && r.value.kind.value == col.normalize(c.kind.value)) &&
      (c.kind.Custom? ==> r.value.kind.Custom? && r.value.kind.value == col.normalize(c.kind.value))
  {
    Gate(ParseStructure(raw, ctx), col)
  }
}
