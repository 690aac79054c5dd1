/**
 * The data model of a parsed utility class: the `Candidate` record, its variants,
 * modifiers and kinds, the parser's configuration and the collaborators it calls
 * but does not define.
 */
module Syntax {
  import opened Wrappers

  /** A segment chained in front of the base utility, e.g. `hover` or `[&>*]`. */
  datatype Variant =
    | PlainVariant(name: string)
    | CustomVariant(value: string)

  /** The trailing `/...` part of a utility, e.g. `/50` or `/[0.5]`. */
  datatype Modifier =
    | PlainModifier(name: string)
    | CustomModifier(value: string)

  /**
   * The three mutually exclusive kinds of candidate. The source tags them with
   * `type: 'utility' | 'property' | 'custom'`; a utility carries no value.
   */
  datatype Kind =
    | Utility(name: string)
    | Property(name: string, value: string)
    | Custom(name: string, value: string)

  datatype Candidate = Candidate(
    raw: string,
    prefix: string,
    important: bool,
    negative: bool,
    variants: seq<Variant>,
    modifiers: seq<Modifier>,
    kind: Kind)

  /** The two configuration entries the parser reads: a one-character separator and an optional prefix. */
  datatype Context = Context(separator: char, prefix: Option<string>)

  /**
   * Functions the parser calls that live outside its own file. `isParsableCssValue`
   * receives `None` for a utility, whose `value` is undefined in the source.
   * `urlHost` is the `host` of `new URL(s)`, or `None` when that constructor throws.
   */
  datatype Collaborators = Collaborators(
    normalize: string -> string,
    isValidArbitraryValue: string -> bool,
    isParsableCssValue: Option<string> -> bool,
    urlHost: string -> Option<string>)

  /** The `value` field of a candidate, undefined (`None`) for a utility. */
  function KindValue(k: Kind): (v: Option<string>)
    ensures v.None? <==> k.Utility?
    ensures v.Some? ==> v.value == k.value
  {
    match k
    case Utility(_) => None
    case Property(_, value) => Some(value)
    case Custom(_, value) => Some(value)
  }
}
