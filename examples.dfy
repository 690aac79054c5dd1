/**
 * Worked examples: what the parser makes of typical utility classes under the
 * default `:` separator and no prefix, including the places where the code's
 * behaviour is easy to mistake (no data-type tag, leftmost modifier split).
 */
module Examples {
  import opened Wrappers
  import opened Scan
  import opened Syntax
  import opened Variants
  import opened Modifiers
  import opened Classify
  import opened CandidateParser

  const Default := Context(':', None)

  /** A token without separator is its own base segment, with no variants. */
  lemma NoSeparatorNoVariants(raw: string, sep: char)
    requires sep !in raw
    ensures BaseSegment(raw, sep) == raw && SplitVariants(raw, sep) == []
  {
    assert Splittable([raw], sep);
    SplitJoin([raw], sep);
  }

  /** A bracket-free text never closes a bracket, so a separator before it is a split point. */
  lemma BracketFreeDoesNotClose(t: string)
    requires '[' !in t && ']' !in t
    ensures !ClosesAhead(t, 0)
  {
    assert FirstBracketFrom(t, 0) < |t| ==> t[FirstBracketFrom(t, 0)] in t;
  }

  lemma NoSlashNoModifierTaken(rest: string)
    requires '/' !in rest
    ensures TakeModifier(rest) == (rest, [])
  {
  }

  /** Text without brackets is a plain utility named by the whole text. */
  lemma BracketFreeIsUtility(t: string)
    requires '[' !in t
    ensures ClassifyText(t) == Utility(t)
  {
    assert NoDashBracket(t) by {
      forall i | 0 <= i < |t| ensures !DashBracketAt(t, i) {
        if i + 1 < |t| { assert t[i + 1] in t; }
      }
    }
    assert |t| > 0 ==> t[0] in t;
  }

  /** Three separator-free segments, the last two bracket-free, split back apart. */
  lemma SplitThree(a: string, b: string, c: string, sep: char)
    requires sep !in a && sep !in b && sep !in c
    requires '[' !in b && ']' !in b && '[' !in c && ']' !in c && sep != '[' && sep != ']'
    ensures Split(a + [sep] + b + [sep] + c, sep) == [a, b, c]
  {
    var segs := [a, b, c];
    BracketFreeDoesNotClose(b + [sep] + c);
    BracketFreeDoesNotClose(c);
    assert segs[1..] == [b, c] && segs[1..][1..] == [c];
    assert Join(segs[1..], sep) == b + [sep] + c;
    assert Join(segs, sep) == a + [sep] + b + [sep] + c;
    assert Splittable(segs[1..][1..], sep);
    assert Splittable(segs[1..], sep);
    assert Splittable(segs, sep);
    SplitJoin(segs, sep);
  }

  /** `parseStructure` is the composition of its stages. */
  lemma Stages(raw: string, ctx: Context, variants: seq<Variant>, flags: Flags, taken: (string, seq<Modifier>), kind: Kind)
    requires SplitVariants(raw, ctx.separator) == variants
    requires StripFlags(BaseSegment(raw, ctx.separator)) == flags
    requires TakeModifier(flags.rest) == taken
    requires ClassifyText(taken.0) == kind
    ensures ParseStructure(raw, ctx) ==
      Candidate(raw, ctx.prefix.GetOr(""), flags.important, flags.negative, variants, taken.1, kind)
  {
  }

  /** The variants and the base are read off the list of segments. */
  lemma FromSegments(raw: string, sep: char, segs: seq<string>)
    requires Split(raw, sep) == segs
    ensures SplitVariants(raw, sep) == ParseVariants(segs[..|segs| - 1])
    ensures BaseSegment(raw, sep) == segs[|segs| - 1]
  {
  }

  lemma ChainedSplit(raw: string)
    requires raw == "hover:focus:text-red-500"
    ensures Split(raw, ':') == ["hover", "focus", "text-red-500"]
  {
    assert raw == "hover" + [':'] + "focus" + [':'] + "text-red-500";
    SplitThree("hover", "focus", "text-red-500", ':');
  }

  lemma PlainBase(base: string)
    requires base == "text-red-500"
    ensures StripFlags(base) == Flags(false, false, base)
    ensures TakeModifier(base) == (base, [])
    ensures ClassifyText(base) == Utility(base)
  {
    NoSlashNoModifierTaken(base);
    BracketFreeIsUtility(base);
  }

  lemma ChainedVariants(raw: string, base: string)
    requires Split(raw, ':') == ["hover", "focus", base]
    ensures SplitVariants(raw, ':') == [PlainVariant("hover"), PlainVariant("focus")]
    ensures BaseSegment(raw, ':') == base
  {
    FromSegments(raw, ':', ["hover", "focus", base]);
    assert ["hover", "focus", base][..2] == ["hover", "focus"];
  }

  /** `hover:focus:text-red-500`: two plain variants, in order, and a utility. */
  lemma ChainedVariantsExample(raw: string)
    requires raw == "hover:focus:text-red-500"
    ensures ParseStructure(raw, Default) ==
      Candidate(raw, "", false, false, [PlainVariant("hover"), PlainVariant("focus")], [], Utility("text-red-500"))
  {
    var base := "text-red-500";
    ChainedSplit(raw);
    ChainedVariants(raw, base);
    PlainBase(base);
    Stages(raw, Default, [PlainVariant("hover"), PlainVariant("focus")], Flags(false, false, base), (base, []), Utility(base));
  }

  lemma NoFlags(base: string)
    requires !StartsWith(base, '!') && !StartsWith(base, '-')
    ensures StripFlags(base) == Flags(false, false, base)
  {
  }

  /** A token that is one bare utility, without separator, flags, brackets or slash. */
  lemma BareUtility(raw: string, ctx: Context)
    requires ctx.separator !in raw && '[' !in raw && '/' !in raw
    requires !StartsWith(raw, '!') && !StartsWith(raw, '-')
    ensures ParseStructure(raw, ctx) == Candidate(raw, ctx.prefix.GetOr(""), false, false, [], [], Utility(raw))
  {
    NoSeparatorNoVariants(raw, ctx.separator);
    NoFlags(raw);
    NoSlashNoModifierTaken(raw);
    BracketFreeIsUtility(raw);
    Stages(raw, ctx, [], Flags(false, false, raw), (raw, []), Utility(raw));
  }

  lemma NegativeFlags(raw: string)
    requires raw == "-mt-4"
    ensures ':' !in raw && StripFlags(raw) == Flags(false, true, "mt-4")
    ensures '/' !in "mt-4" && '[' !in "mt-4"
  {
    assert raw[1..] == "mt-4";
  }

  /** `-mt-4`: negative, and the utility is named without its dash. */
  lemma NegativeExample(raw: string)
    requires raw == "-mt-4"
    ensures ParseStructure(raw, Default) == Candidate(raw, "", false, true, [], [], Utility("mt-4"))
  {
    var rest := "mt-4";
    NegativeFlags(raw);
    NoSeparatorNoVariants(raw, ':');
    NoSlashNoModifierTaken(rest);
    BracketFreeIsUtility(rest);
    Stages(raw, Default, [], Flags(false, true, rest), (rest, []), Utility(rest));
  }

  lemma ImportantFlags(raw: string)
    requires raw == "!text-red-500"
    ensures ':' !in raw && StripFlags(raw) == Flags(true, false, "text-red-500")
  {
  }

  /** `!text-red-500`: important. */
  lemma ImportantExample(raw: string)
    requires raw == "!text-red-500"
    ensures ParseStructure(raw, Default) == Candidate(raw, "", true, false, [], [], Utility("text-red-500"))
  {
    var rest := "text-red-500";
    ImportantFlags(raw);
    NoSeparatorNoVariants(raw, ':');
    PlainBase(rest);
    Stages(raw, Default, [], Flags(true, false, rest), (rest, []), Utility(rest));
  }

  lemma ArbitraryValueFacts(raw: string)
    requires raw == "bg-[#bada55]"
    ensures ':' !in raw && '/' !in raw && !StartsWith(raw, '!') && !StartsWith(raw, '-')
  {
  }

  lemma ArbitraryValueShape(raw: string)
    requires raw == "bg-[#bada55]"
    ensures raw == "bg" + "-[" + "#bada55" + "]" && NoDashBracket("bg") && !StartsWith(raw, '[')
  {
  }

  /** `bg-[#bada55]`: an arbitrary value; the whole bracket interior is the value. */
  lemma ArbitraryValueExample(raw: string)
    requires raw == "bg-[#bada55]"
    ensures ParseStructure(raw, Default) == Candidate(raw, "", false, false, [], [], Custom("bg", "#bada55"))
  {
    ArbitraryValueFacts(raw);
    ArbitraryValueShape(raw);
    NoFlags(raw);
    NoSeparatorNoVariants(raw, ':');
    NoSlashNoModifierTaken(raw);
    CustomText(raw, "bg", "#bada55");
    Stages(raw, Default, [], Flags(false, false, raw), (raw, []), Custom("bg", "#bada55"));
  }

  /** Text `name-[value]` that does not start with `[` is an arbitrary value. */
  lemma CustomText(text: string, name: string, value: string)
    requires text == name + "-[" + value + "]" && NoDashBracket(name) && !StartsWith(text, '[')
    ensures ClassifyText(text) == Custom(name, value)
  {
    ArbitraryValueRoundTrip(name, value);
  }

  lemma BareModifierFacts(raw: string)
    requires raw == "text-red-500/50"
    ensures ':' !in raw && !StartsWith(raw, '!') && !StartsWith(raw, '-')
    ensures raw == "text-red-500" + "/" + "50" && '/' !in "text-red-500" && BracketFree("50")
  {
  }

  lemma BracketedModifierFacts(raw: string)
    requires raw == "text-red-500/[0.5]"
    ensures ':' !in raw && !StartsWith(raw, '!') && !StartsWith(raw, '-')
    ensures raw == "text-red-500" + "/[" + "0.5" + "]" + "" && '/' !in "text-red-500" && BracketFree("0.5")
  {
  }

  /** `text-red-500/50`: a bare modifier. */
  lemma BareModifierExample(raw: string)
    requires raw == "text-red-500/50"
    ensures ParseStructure(raw, Default) ==
      Candidate(raw, "", false, false, [], [PlainModifier("50")], Utility("text-red-500"))
  {
    var text := "text-red-500";
    BareModifierFacts(raw);
    NoFlags(raw);
    NoSeparatorNoVariants(raw, ':');
    BareModifierRoundTrip(text, "50");
    PlainBase(text);
    Stages(raw, Default, [], Flags(false, false, raw), (text, [PlainModifier("50")]), Utility(text));
  }

  /** `text-red-500/[0.5]`: a bracketed modifier. */
  lemma BracketedModifierExample(raw: string)
    requires raw == "text-red-500/[0.5]"
    ensures ParseStructure(raw, Default) ==
      Candidate(raw, "", false, false, [], [CustomModifier("0.5")], Utility("text-red-500"))
  {
    var text := "text-red-500";
    BracketedModifierFacts(raw);
    NoFlags(raw);
    NoSeparatorNoVariants(raw, ':');
    BracketedModifierRoundTrip(text, "0.5", "");
    PlainBase(text);
    Stages(raw, Default, [], Flags(false, false, raw), (text, [CustomModifier("0.5")]), Utility(text));
  }

  /** A token that is not split is its own base segment, with no variants. */
  lemma SingleSegment(raw: string, sep: char)
    requires Split(raw, sep) == [raw]
    ensures BaseSegment(raw, sep) == raw && SplitVariants(raw, sep) == []
  {
  }

  /** A declaration without `/` cannot look like a URI. */
  lemma NoSlashNotUri(declaration: string, col: Collaborators)
    requires '/' !in declaration
    ensures !LooksLikeUri(declaration, col)
  {
    assert forall i :: 0 <= i < |declaration| ==> declaration[i] != '/';
  }

  lemma PropertySplitFacts(raw: string)
    requires raw == "[background-color:red]"
    ensures raw == "" + "[" + "background-color:red" + "]" && BracketFree("background-color:red")
  {
  }

  lemma PropertyFlagFacts(raw: string)
    requires raw == "[background-color:red]"
    ensures '/' !in raw && !StartsWith(raw, '!') && !StartsWith(raw, '-')
  {
  }

  lemma PropertyShapeFacts(raw: string)
    requires raw == "[background-color:red]"
    ensures raw == "[" + "background-color" + ":" + "red" + "]"
    ensures IsPropertyName("background-color") && IsPropertyValue("red")
    ensures IsValidPropName("background-color") && '/' !in "background-color" + ":" + "red"
  {
  }

  /** `[background-color:red]` parses to the structure of an arbitrary property. */
  lemma PropertyStructure(raw: string)
    requires raw == "[background-color:red]"
    ensures ParseStructure(raw, Default) ==
      Candidate(raw, "", false, false, [], [], Property("background-color", "red"))
  {
    PropertySplitFacts(raw);
    PropertyFlagFacts(raw);
    EnclosedSeparatorsDoNotSplit("", "background-color:red", ':');
    SingleSegment(raw, ':');
    NoFlags(raw);
    NoSlashNoModifierTaken(raw);
    PropertyShapeFacts(raw);
    ArbitraryPropertyRoundTrip("background-color", "red");
    Stages(raw, Default, [], Flags(false, false, raw), (raw, []), Property("background-color", "red"));
  }

  /** `[background-color:red]`: an arbitrary property whose value is normalised. */
  lemma PropertyExample(raw: string, col: Collaborators)
    requires raw == "[background-color:red]"
    requires col.isParsableCssValue(Some("red"))
    ensures ParseRawCandidate(raw, Default, col) ==
      Some(Candidate(raw, "", false, false, [], [], Property("background-color", col.normalize("red"))))
  {
    PropertyStructure(raw);
    PropertyShapeFacts(raw);
    NoSlashNotUri("background-color" + ":" + "red", col);
  }

  lemma TypedValueFacts(raw: string)
    requires raw == "bg-[length:200px]"
    ensures raw == "bg-" + "[" + "length:200px" + "]" && ':' !in "bg-" && BracketFree("length:200px")
    ensures '/' !in raw && !StartsWith(raw, '!') && !StartsWith(raw, '-')
    ensures raw == "bg" + "-[" + "length:200px" + "]" && NoDashBracket("bg") && !StartsWith(raw, '[')
  {
  }

  /**
   * `bg-[length:200px]`: the `:` inside the brackets does not split, and no
   * data-type tag is split off: the whole interior is the value.
   */
  lemma TypedValueExample(raw: string)
    requires raw == "bg-[length:200px]"
    ensures ParseStructure(raw, Default) == Candidate(raw, "", false, false, [], [], Custom("bg", "length:200px"))
  {
    TypedValueFacts(raw);
    EnclosedSeparatorsDoNotSplit("bg-", "length:200px", ':');
    SingleSegment(raw, ':');
    NoFlags(raw);
    NoSlashNoModifierTaken(raw);
    CustomText(raw, "bg", "length:200px");
    Stages(raw, Default, [], Flags(false, false, raw), (raw, []), Custom("bg", "length:200px"));
  }

  /** `a/b/c`: the leftmost slash starts the modifier, which runs to the end. */
  lemma LeftmostModifierExample()
    ensures ParseModifiers("a/b/c") == Some(("a", PlainModifier("b/c")))
  {
    assert "a/b/c" == "a" + "/" + "b/c";
    BareModifierRoundTrip("a", "b/c");
  }

  /** `a/[b]c`: the text after a bracketed modifier is dropped. */
  lemma DroppedTailExample()
    ensures ParseModifiers("a/[b]c") == Some(("a", CustomModifier("b")))
  {
    assert "a/[b]c" == "a" + "/[" + "b" + "]" + "c";
    BracketedModifierRoundTrip("a", "b", "c");
  }

  /** Two segments that meet the conditions of `Splittable` split back apart. */
  lemma SplitTwo(a: string, b: string, sep: char)
    requires !IsBracket(sep) && EnclosesSeparators(a, sep) && EnclosesSeparators(b, sep)
    requires !ClosesAhead(b, 0)
    ensures Split(a + [sep] + b, sep) == [a, b]
  {
    var segs := [a, b];
    assert segs[1..] == [b];
    assert Join(segs, sep) == a + [sep] + b;
    assert Splittable(segs[1..], sep);
    assert Splittable(segs, sep);
    SplitJoin(segs, sep);
  }

  /** Three segments that meet the conditions of `Splittable` split back apart. */
  lemma SplitThreeEnclosed(a: string, b: string, c: string, sep: char)
    requires !IsBracket(sep)
    requires EnclosesSeparators(a, sep) && EnclosesSeparators(b, sep) && EnclosesSeparators(c, sep)
    requires !ClosesAhead(b + [sep] + c, 0) && !ClosesAhead(c, 0)
    ensures Split(a + [sep] + b + [sep] + c, sep) == [a, b, c]
  {
    var segs := [a, b, c];
    assert segs[1..] == [b, c] && segs[1..][1..] == [c];
    assert Join(segs[1..], sep) == b + [sep] + c;
    assert Join(segs, sep) == a + [sep] + b + [sep] + c;
    assert Splittable(segs[1..][1..], sep);
    assert Splittable(segs[1..], sep);
    assert Splittable(segs, sep);
    SplitJoin(segs, sep);
  }

  /** A segment without the separator encloses all of its (no) separators. */
  lemma NoSeparatorEnclosed(seg: string, sep: char)
    requires sep !in seg
    ensures EnclosesSeparators(seg, sep)
  {
    assert forall k :: 0 <= k < |seg| ==> seg[k] in seg;
  }

  /** The `:` of `[&:hover]` is followed by `]` first, so it does not split. */
  lemma HoverSelectorEncloses(v: string)
    requires v == "[&:hover]"
    ensures EnclosesSeparators(v, ':')
  {
    forall k | 0 <= k < |v| && v[k] == ':' ensures ClosesAhead(v, k + 1) {
      assert k == 2;
      FirstBracketOfRun(v, 3, 8);
    }
  }

  lemma HoverSelectorFacts(raw: string)
    requires raw == "[&:hover]:underline"
    ensures raw == "[&:hover]" + [':'] + "underline"
    ensures ':' !in "underline" && '[' !in "underline" && ']' !in "underline" && '/' !in "underline"
    ensures !StartsWith("underline", '!') && !StartsWith("underline", '-')
    ensures ParseVariant("[&:hover]") == CustomVariant("&:hover")
  {
    var v := "[&:hover]";
    assert v[1..|v| - 1] == "&:hover";
  }

  /** The variants and base of `[&:hover]:underline`. */
  lemma HoverSelectorSplit(raw: string)
    requires raw == "[&:hover]:underline"
    ensures SplitVariants(raw, ':') == [CustomVariant("&:hover")]
    ensures BaseSegment(raw, ':') == "underline"
  {
    var base := "underline";
    HoverSelectorFacts(raw);
    HoverSelectorEncloses("[&:hover]");
    NoSeparatorEnclosed(base, ':');
    BracketFreeDoesNotClose(base);
    SplitTwo("[&:hover]", base, ':');
    FromSegments(raw, ':', ["[&:hover]", base]);
    assert ["[&:hover]", base][..1] == ["[&:hover]"];
  }

  /**
   * `[&:hover]:underline`: the `:` inside the selector is followed by `]`, so
   * only the second `:` splits; the selector is a custom variant.
   */
  lemma CustomVariantExample(raw: string)
    requires raw == "[&:hover]:underline"
    ensures ParseStructure(raw, Default) ==
      Candidate(raw, "", false, false, [CustomVariant("&:hover")], [], Utility("underline"))
  {
    var base := "underline";
    HoverSelectorSplit(raw);
    HoverSelectorFacts(raw);
    NoFlags(base);
    NoSlashNoModifierTaken(base);
    BracketFreeIsUtility(base);
    Stages(raw, Default, [CustomVariant("&:hover")], Flags(false, false, base), (base, []), Utility(base));
  }

  lemma NestedSelectorFacts(raw: string)
    requires raw == "[&:has([x])]:u"
    ensures raw == "[&" + [':'] + "has([x])]" + [':'] + "u"
    ensures ':' !in "[&" && ':' !in "has([x])]" && ':' !in "u" && '[' !in "u" && ']' !in "u" && '/' !in "u"
    ensures !StartsWith("u", '!') && !StartsWith("u", '-')
    ensures ParseVariant("[&") == PlainVariant("[&") && ParseVariant("has([x])]") == PlainVariant("has([x])]")
  {
  }

  /** After the first `:` of `[&:has([x])]:u` the first bracket is `[`. */
  lemma NestedSelectorOpens(t: string)
    requires t == "has([x])]" + [':'] + "u"
    ensures !ClosesAhead(t, 0)
  {
    FirstBracketOfRun(t, 0, 4);
  }

  /**
   * `[&:has([x])]:u`: the lookahead looks only at the first bracket, not at
   * bracket depth, so the `:` inside the outer brackets splits because a `[`
   * comes before any `]`. Neither piece is a custom variant.
   */
  lemma NestedSelectorExample(raw: string)
    requires raw == "[&:has([x])]:u"
    ensures Split(raw, ':') == ["[&", "has([x])]", "u"]
    ensures ParseStructure(raw, Default) ==
      Candidate(raw, "", false, false, [PlainVariant("[&"), PlainVariant("has([x])]")], [], Utility("u"))
  {
    NestedSelectorFacts(raw);
    NoSeparatorEnclosed("[&", ':');
    NoSeparatorEnclosed("has([x])]", ':');
    NoSeparatorEnclosed("u", ':');
    NestedSelectorOpens("has([x])]" + [':'] + "u");
    BracketFreeDoesNotClose("u");
    SplitThreeEnclosed("[&", "has([x])]", "u", ':');
    FromSegments(raw, ':', ["[&", "has([x])]", "u"]);
    assert ["[&", "has([x])]", "u"][..2] == ["[&", "has([x])]"];
    NoFlags("u");
    NoSlashNoModifierTaken("u");
    BracketFreeIsUtility("u");
    Stages(raw, Default, [PlainVariant("[&"), PlainVariant("has([x])]")], Flags(false, false, "u"), ("u", []), Utility("u"));
  }
}
