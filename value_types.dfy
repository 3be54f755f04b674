/**
 * Heuristic inference of the type name of an untagged value
 * (`guessValueType`).
 */
module ValueTypes {
  import opened Json
  import opened Patterns

  /** The names the guess returns when it does not return a declared `@type`. */
  const BuiltinTypes: seq<string> := ["Duration", "URL", "Text", "Integer", "Number", "Boolean", "Unknown"]

  /** What the guess inspects: arrays are followed through their first element. */
  function FirstLeaf(v: Value): (r: Value)
    ensures !(r.Arr? && r.items != [])
  {
    if v.Arr? && v.items != [] then FirstLeaf(v.items[0]) else v
  }

  /**
   * Strings: duration, then URL, then text.  Numbers: integral or not.
   * An array takes the guess of its first element; `value[0]` of an empty
   * array is undefined, which falls through to `Unknown`.  An object gives
   * its `@type`, or `Unknown` without one.
   */
  function GuessValueType(v: Value): (r: string)
    ensures r != ""
    ensures r in BuiltinTypes || TypeTag(FirstLeaf(v)) == Some(r)
  {
    match v
    case Str(s) =>
      if IsIso8601Duration(s) then "Duration"
      else if IsValidUrl(s) then "URL"
      else "Text"
    case Num(isInt) => if isInt then "Integer" else "Number"
    case Bool(_) => "Boolean"
    case Arr(items) => if items == [] then "Unknown" else GuessValueType(items[0])
    case Obj(_) => if TypeTag(v).Some? then TypeTag(v).value else "Unknown"
    case Null => "Unknown"
  }

  /** The guess of a value is the guess of the first non-array (or empty array) reached through first elements. */
  lemma {:induction false} GuessFollowsFirstLeaf(v: Value)
    ensures GuessValueType(v) == GuessValueType(FirstLeaf(v))
    ensures FirstLeaf(v).Arr? ==> GuessValueType(v) == "Unknown"
    decreases v
  {
    if v.Arr? && v.items != [] {
      GuessFollowsFirstLeaf(v.items[0]);
    }
  }

  /** The string rules, in terms of the independent descriptions of the two patterns. */
  lemma GuessStringRules(s: string)
    ensures GuessValueType(Str(s)) in ["Duration", "URL", "Text"]
    ensures GuessValueType(Str(s)) == "Duration" <==>
      exists d :: ValidDuration(d) && Render(d) == UpperString(s)
    ensures GuessValueType(Str(s)) == "URL" <==>
      HasPrefix(UpperString(s), "//") || HasPrefix(UpperString(s), "HTTP://") || HasPrefix(UpperString(s), "HTTPS://")
  {
    DurationIff(s);
    UrlIff(s);
    DurationIsNotUrl(s);
  }

  /** `P` and `PT` alone already count as durations, in either case. */
  lemma GuessBareDesignators()
    ensures GuessValueType(Str("P")) == "Duration"
    ensures GuessValueType(Str("pt")) == "Duration"
  {
  }

  lemma GuessMinutes()
    ensures GuessValueType(Str("PT5M")) == "Duration"
  {
    var d := Duration(Some(TimePart(None, Some("5"), None)));
    ParseRender(d);
    assert Render(d) == "PT5M";
  }

  /** A date part is not part of the pattern. */
  lemma GuessDateRejected()
    ensures GuessValueType(Str("P1D")) == "Text"
  {
  }

  /** The time components must come in the order hours, minutes, seconds. */
  lemma GuessOrderRejected()
    ensures GuessValueType(Str("PT1M1H")) == "Text"
  {
    ComponentAt("1", 'M', "1H", 'H');
    assert "PT1M1H"[2..] == "1" + ['M'] + "1H";
    ComponentAt("1", 'M', "1H", 'M');
    ComponentAt("1", 'H', "", 'S');
    assert "1H" == "1" + ['H'] + "";
  }

  /** A string whose first letter starts neither a duration nor a URL is plain text. */
  lemma PlainText(s: string)
    requires |s| > 0 && Upper(s[0]) != 'P' && Upper(s[0]) != 'H' && s[0] != '/'
    ensures GuessValueType(Str(s)) == "Text"
  {
    assert SchemeLength(s) == 0;
  }

  /** A protocol-relative address is a URL. */
  lemma GuessRelativeUrl()
    ensures GuessValueType(Str("//cdn.example")) == "URL"
  {
  }

  /** The scheme is matched without regard to case. */
  lemma GuessUpperCaseUrl()
    ensures GuessValueType(Str("HTTPS://example.org")) == "URL"
  {
  }

  /** Only `http`, `https` and protocol-relative addresses count. */
  lemma GuessOtherSchemeRejected()
    ensures GuessValueType(Str("ftp://example.org")) == "Text"
  {
  }
}
