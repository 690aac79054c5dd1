# Tailwind candidate parser, modelled in Dafny

This project models the candidate parser of Tailwind CSS (`src/lib/candidate.js`).
It turns one raw class token such as `hover:!-bg-[#f00]/50` into a structured
*candidate*:

- the variants, split off at the configured separator;
- the `!` (important) and `-` (negative) flags;
- at most one modifier after a `/`;
- the kind: a plain utility name, an arbitrary property `[name:value]`, or an arbitrary value `name-[value]`.

After that, a few validity gates either drop the token (`null`) or normalise its value.
A module-level cache keyed by the raw text sits in front of the parser.

Modules, following the stages of the source:

| file | module | what |
|---|---|---|
| `wrappers.dfy` | `Wrappers` | `Option` (the source's `null`/`undefined`) |
| `syntax.dfy` | `Syntax` | the candidate record, variants, modifiers, kinds, configuration, collaborators |
| `scan.dfy` | `Scan` | bracket and whitespace scanning shared by the regular expressions |
| `variants.dfy` | `Variants` | the separator split with its bracket lookahead, and `parseVariant` |
| `modifiers.dfy` | `Modifiers` | `parseModifiers` and the leftmost-match semantics of its regular expression |
| `classify.dfy` | `Classify` | `parseArbitraryProperty`, `parseArbitraryValue`, and their priority |
| `candidate.dfy` | `CandidateParser` | `parseStructure`, `isValidPropName`, `looksLikeUri`, `parseRawCandidate` |
| `cache.dfy` | `Cache` | `parseCandidate` and its `Map` cache, as a class with a mutable map field |
| `examples.dfy` | `Examples` | worked tokens, each proved for all collaborators |

The regular expressions become explicit scans. Each scan is proved equal to a
declarative reading of its expression:

- The separator pattern `\<sep>(?![^[]*\])` splits at a separator unless the first bracket after it is a `]`. It looks only at that first bracket, not at bracket depth: a separator inside `[...]` does not split when the next bracket is the closing `]`, but it does split when a nested `[` comes first.
- The modifier pattern `\/\[([^\[\]]+)\]|\/([^\[\]]+)$` takes the leftmost position where either alternative matches.
- The property pattern `^\[([a-zA-Z0-9-_]+):(\S+)\]$` uses the JavaScript `\s` whitespace set.

The collaborators are parameters of the model. `normalize`, `isValidArbitraryValue`,
`isParsableCssValue` and the WHATWG `URL` constructor are fields of a
`Collaborators` value. A total function stands for each of them. The URL parser is reduced to the host it yields, or `None` when it throws.

Behaviour as the code has it. Where other descriptions of this parser differ, the model follows the code:

- An arbitrary value keeps the whole bracket interior. No `type:` tag is split off, so `bg-[length:200px]` is `Custom("bg", "length:200px")` (`Examples.TypedValueExample`).
- The modifier starts at the *leftmost* qualifying `/`, not the last one. `a/b/c` has the modifier `b/c` (`Examples.LeftmostModifierExample`).
- The split lookahead checks only the first bracket after a separator, not bracket depth. So `[&:has([x])]:u` splits into `[&`, `has([x])]` and `u` (`Examples.NestedSelectorExample`).
- The bracketed modifier alternative is not anchored at the end, so text after its `]` is dropped (`Examples.DroppedTailExample`).
- Up to two leading `-` are stripped, one before and one after the prefix position. The prefix itself is never stripped; it is only recorded.
- `&&` binds tighter than `||` on line 52. So `isParsableCssValue(candidate.value)` gates every kind, and a utility is gated on `isParsableCssValue(undefined)`.
- `url.scheme` is always `undefined` for a WHATWG `URL`. So `looksLikeUri` holds exactly when the text contains `://` and parses to a URL with a non-empty host.
- A cached `null` is falsy in `if (!candidate)`, so a rejected token is parsed again on every call. Only accepted candidates are reused.
- The type declarations tag custom variants and modifiers with `source: 'custom'` and omit `important`. The code writes `type: 'custom'` and sets `important`. The model follows the code.

## Model

| member | source | states |
|---|---|---|
| Variants.ClosesAheadIsLookahead | src/lib/candidate.js:72 | the scan "the first bracket at or after j is `]`" holds exactly when the lookahead `[^[]*\]` matches at j |
| Variants.JoinSplit | src/lib/candidate.js:72-75 | joining the split segments with the separator gives back the raw token |
| Variants.SplitCutsAtSplitPoints | src/lib/candidate.js:72-75 | the segment boundaries are exactly the separator positions whose first following bracket is not `]` |
| Variants.SplitJoin | src/lib/candidate.js:72-76 | segments whose own separators each have `]` as the first following bracket within the segment, and where no segment after the first begins a text whose first bracket is `]`, split back out of their join unchanged |
| Variants.SplitIsSplittable | src/lib/candidate.js:72-75 | for a separator that is not a bracket, every list that splitting produces meets those conditions, so the two round trips together describe exactly the lists that splitting yields |
| Variants.EnclosedSeparatorsDoNotSplit | src/lib/candidate.js:72 | a separator inside a bracket-free `[...]` at the end of a token never splits it |
| Variants.ParseVariant | src/lib/candidate.js:187-193 | a segment becomes a custom variant exactly when it starts with `[` and ends with `]`; the variant's text is the segment, so nothing is lost |
| CandidateParser.StripFlags | src/lib/candidate.js:78-97 | important exactly when the base starts with `!`; after it, at most two `-` are removed, negative exactly when one was, and a third `-` is kept |
| CandidateParser.SplitVariants | src/lib/candidate.js:74-76 | the variants' texts followed by the base segment are exactly the split's segments, in order, and so rejoin to the raw token; each variant is `parseVariant` of its segment |
| Modifiers.ParseModifiers | src/lib/candidate.js:200-225 | `None` exactly when no position matches either alternative; otherwise the result is the leftmost match, its text is everything before it, and its capture is the bracket interior or the bracket-free rest |
| Modifiers.NoSlashNoModifier | src/lib/candidate.js:201 | a text without `/` has no modifier |
| Modifiers.BareModifierRoundTrip | src/lib/candidate.js:201-222 | `text/name` with `/`-free text and a non-empty bracket-free name parses back to `text` and the plain modifier `name` |
| Modifiers.BracketedModifierRoundTrip | src/lib/candidate.js:201-214 | `text/[value]tail` with `/`-free text parses to `text` and the custom modifier `value`, whatever the tail |
| CandidateParser.TakeModifier | src/lib/candidate.js:99-106 | the remaining text is a prefix of the input; no modifier exactly when the whole text is kept and nothing matched; one modifier, the leftmost match, otherwise |
| Classify.ParseArbitraryProperty | src/lib/candidate.js:151-159 | a result rebuilds the text as `[name:value]`, with a name of letters, digits, `-` and `_` and a non-empty value without whitespace |
| Classify.ArbitraryPropertyRoundTrip | src/lib/candidate.js:151-159 | every valid name and value printed as `[name:value]` parses back to that pair |
| Classify.ParseArbitraryValue | src/lib/candidate.js:166-180 | `None` exactly when there is no `-[` or the text does not end in `]`; otherwise the text is `name-[value]` with the first `-[` after `name` |
| Classify.ArbitraryValueRoundTrip | src/lib/candidate.js:166-180 | `name-[value]` with no `-[` in `name` parses back to that pair |
| Classify.ClassifyText | src/lib/candidate.js:120-143 | the property form wins, then the arbitrary value form, then a utility named by the whole text; each kind's shape and the failure of the earlier forms |
| Classify.ClassifyKeepsText | src/lib/candidate.js:120-143 | the text of the classified kind is exactly the text classified |
| CandidateParser.ParseStructure | src/lib/candidate.js:70-144 | the candidate keeps the raw token and records the configured prefix (`""` when absent), with at most one modifier |
| CandidateParser.StructureVariants | src/lib/candidate.js:72-76 | the candidate's variants, followed by the base segment, are exactly the split's segments, in order, and rebuild the raw token; each variant is `parseVariant` of its segment |
| CandidateParser.StructureCuts | src/lib/candidate.js:72-76 | the candidate's variants and base are cut at exactly the separators whose first following bracket is not `]` |
| CandidateParser.StructureBase | src/lib/candidate.js:78-143 | the flags are those of the base segment; the kind's text is what follows them, up to the leftmost modifier match when there is one; the kind is the priority-ordered classification of that text |
| CandidateParser.PrefixIsInert | src/lib/candidate.js:91-113 | configurations with the same separator give the same candidate apart from the recorded prefix |
| Syntax.KindValue | src/lib/candidate.js:52 | the value passed to `isParsableCssValue` is undefined exactly for a utility |
| CandidateParser.InvalidPropNameRejected | src/lib/candidate.js:227-231 | a property whose name does not match `^[a-z_-]` (the test of lines 42-44) is dropped, whatever the collaborators answer |
| CandidateParser.LooksLikeUri | src/lib/candidate.js:237-251 | true exactly when the declaration contains `://` and the URL parser accepts it with a non-empty host |
| CandidateParser.Gate | src/lib/candidate.js:41-61 | a candidate survives exactly when every gate passes; a survivor keeps its common fields and name, and its property or custom value is replaced by the normalised value |
| CandidateParser.ParseRawCandidate | src/lib/candidate.js:34-62 | the same, for the structure parsed from the raw token |
| Cache.StoreKeepsCoherent | src/lib/candidate.js:20-23 | storing a freshly parsed result keeps every cache entry equal to the parse of its key |
| Cache.CandidateCache.constructor | src/lib/candidate.js:9 | the cache starts empty |
| Cache.CandidateCache.ParseCandidate | src/lib/candidate.js:17-26 | a stored candidate is returned unchanged; a missing key or a stored `null` is parsed and stored; only that key changes; a coherent cache stays coherent and answers what parsing would |
| Examples.ChainedVariantsExample | src/lib/candidate.js:72-76 | `hover:focus:text-red-500` has the plain variants `hover`, `focus` and the utility `text-red-500` |
| Examples.NegativeExample | src/lib/candidate.js:84-97 | `-mt-4` is negative, and its utility is `mt-4` without the dash |
| Examples.ImportantExample | src/lib/candidate.js:78-82 | `!text-red-500` is important, and its utility is `text-red-500` |
| Examples.ArbitraryValueExample | src/lib/candidate.js:131-138 | `bg-[#bada55]` is the arbitrary value `#bada55` of `bg` |
| Examples.TypedValueExample | src/lib/candidate.js:131-138 | `bg-[length:200px]` is not split at its inner `:` and keeps `length:200px` as its value |
| Examples.BareModifierExample | src/lib/candidate.js:99-106 | `text-red-500/50` is the utility `text-red-500` with the plain modifier `50` |
| Examples.BracketedModifierExample | src/lib/candidate.js:99-106 | `text-red-500/[0.5]` is the utility `text-red-500` with the custom modifier `0.5` |
| Examples.CustomVariantExample | src/lib/candidate.js:72-76 | `[&:hover]:underline` splits only at the second `:`, and the selector becomes the custom variant `&:hover` |
| Examples.NestedSelectorExample | src/lib/candidate.js:72-76 | `[&:has([x])]:u` splits at the `:` inside the outer brackets, because a `[` comes first after it; both leading pieces are plain variants |
| Examples.LeftmostModifierExample | src/lib/candidate.js:201 | `a/b/c` has the plain modifier `b/c` |
| Examples.DroppedTailExample | src/lib/candidate.js:201-214 | `a/[b]c` has the custom modifier `b`, and `c` is dropped |
| Examples.PropertyStructure | src/lib/candidate.js:122-129 | `[background-color:red]` is the arbitrary property `background-color` with value `red` |
| Examples.PropertyExample | src/lib/candidate.js:34-62 | `[background-color:red]` passes the gates when `red` is parsable and comes out with its value normalised |
| Examples.NoSlashNotUri | src/lib/candidate.js:240-242 | a declaration without `/` never looks like a URI |

## Left out

- The regular-expression engine itself is left out. Each pattern is modelled by the scan it denotes, and the scan is proved against a declarative reading of the pattern.
- Separators are single characters taken literally. A multi-character separator is not modelled, and neither is a letter or digit separator that the backslash in `\${separator}` turns into an escape (`\d`, `\1`).
- JavaScript strings are UTF-16 code units; the model uses Dafny characters. The two agree except on characters outside the Basic Multilingual Plane.
- `normalize` (`src/util/dataTypes.js`), `isValidArbitraryValue` (`src/util/isValidArbitraryValue.js`), `isParsableCssValue` (`src/lib/generateRules.js`) and the WHATWG `URL` parser are not part of this model. They are parameters.
- The context is reduced to `tailwindConfig.separator` and `tailwindConfig.prefix`; nothing else in it is read.
- The cached candidate is returned as the same object, and `parseRawCandidate` normalises its value in place. The model returns values, so object identity and aliasing between callers are not captured.
- The cache is a field of one `CandidateCache` object rather than module-level state. The cache key ignores the context, so the model states coherence for one configuration at a time.
- `parseStructure` never returns `null`, so the `if (!candidate)` branch on lines 37-39 is unreachable and not modelled.
- A URI-rejection example is not given for a literal token, because the outcome depends on the host the URL parser returns. `CandidateParser.LooksLikeUri` and `CandidateParser.Gate` state the rejection for all inputs.
- Variants.SplitIsSplittable: proved only for a separator other than `[` or `]`. With a bracket as the separator, the separator itself is the bracket the lookahead inspects, and that case is not covered.
