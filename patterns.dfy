/**
 * The two fixed regular expressions of the validator, written out as string
 * recognisers:
 *
 *   isIso8601Duration   /^P(T(\d+H)?(\d+M)?(\d+S)?)?$/i
 *   isValidUrl          /^(https?:)?\/\//i
 *
 * Both carry the `i` flag without `u`, so a letter matches its ASCII
 * upper- or lower-case form and nothing else; `\d` is `[0-9]`.
 */
module Patterns {
  import opened Json

  /** The case folding of a case-insensitive, non-unicode pattern. */
  function Upper(c: char): char
  {
    if 'a' <= c <= 'z' then (c as int - 32) as char else c
  }

  function UpperString(s: string): (r: string)
    ensures |r| == |s| && forall i :: 0 <= i < |s| ==> r[i] == Upper(s[i])
  {
    seq(|s|, i requires 0 <= i < |s| => Upper(s[i]))
  }

  predicate IsDigit(c: char)
  {
    '0' <= c <= '9'
  }

  predicate AllDigits(s: string)
  {
    forall i :: 0 <= i < |s| ==> IsDigit(s[i])
  }

  // ---------------------------------------------------------------------
  // Durations
  // ---------------------------------------------------------------------

  /** The part of a duration the pattern admits: `P`, optionally `T` and hours, minutes, seconds. */
  datatype TimePart = TimePart(hours: Option<string>, minutes: Option<string>, seconds: Option<string>)
  datatype Duration = Duration(time: Option<TimePart>)

  /** Length of the run of digits at the start of `s` (what a greedy `\d+` takes). */
  function DigitRun(s: string): (n: nat)
    ensures n <= |s| && AllDigits(s[..n]) && (n < |s| ==> !IsDigit(s[n]))
  {
    if s != [] && IsDigit(s[0]) then 1 + DigitRun(s[1..]) else 0
  }

  /** The optional group `(\d+U)?` at the start of `s`: the digits if present, and what follows. */
  function Component(s: string, unit: char): (Option<string>, string)
  {
    var n := DigitRun(s);
    if 0 < n < |s| && Upper(s[n]) == unit then (Some(s[..n]), s[n + 1..]) else (None, s)
  }

  /** Matching of the duration pattern against the whole of `s`. */
  function ParseDuration(s: string): Option<Duration>
  {
    if |s| == 0 || Upper(s[0]) != 'P' then None
    else if |s| == 1 then Some(Duration(None))
    else if Upper(s[1]) != 'T' then None
    else
      var (h, r1) := Component(s[2..], 'H');
      var (m, r2) := Component(r1, 'M');
      var (sec, r3) := Component(r2, 'S');
      if r3 == "" then Some(Duration(Some(TimePart(h, m, sec)))) else None
  }

  predicate IsIso8601Duration(s: string)
  {
    ParseDuration(s).Some?
  }

  /** Independent description of the language: the upper-case spelling of a duration. */
  predicate ValidComponent(c: Option<string>)
  {
    c.Some? ==> c.value != "" && AllDigits(c.value)
  }

  predicate ValidDuration(d: Duration)
  {
    d.time.Some? ==>
      ValidComponent(d.time.value.hours) && ValidComponent(d.time.value.minutes) && ValidComponent(d.time.value.seconds)
  }

  function RenderComponent(c: Option<string>, unit: char): string
  {
    if c.Some? then c.value + [unit] else ""
  }

  function Render(d: Duration): string
  {
    match d.time
    case None => "P"
    case Some(tp) =>
      "PT" + (RenderComponent(tp.hours, 'H') + (RenderComponent(tp.minutes, 'M') + RenderComponent(tp.seconds, 'S')))
  }

  lemma {:induction false} DigitRunOf(d: string, x: string)
    requires AllDigits(d) && (x == [] || !IsDigit(x[0]))
    ensures DigitRun(d + x) == |d|
    decreases |d|
  {
    if d != [] {
      assert (d + x)[1..] == d[1..] + x;
      DigitRunOf(d[1..], x);
    } else {
      assert d + x == x;
    }
  }

  lemma ComponentAt(d: string, u: char, rest: string, v: char)
    requires d != "" && AllDigits(d) && !IsDigit(u) && Upper(u) == u
    ensures Component(d + [u] + rest, v) == if u == v then (Some(d), rest) else (None, d + [u] + rest)
  {
    var s := d + [u] + rest;
    assert s == d + ([u] + rest);
    DigitRunOf(d, [u] + rest);
    assert s[|d|] == u;
    assert s[..|d|] == d;
    assert s[|d| + 1..] == rest;
  }

  lemma SecondsGroup(cs: Option<string>)
    requires ValidComponent(cs)
    ensures Component(RenderComponent(cs, 'S'), 'S') == (cs, "")
  {
    if cs.Some? {
      ComponentAt(cs.value, 'S', "", 'S');
      assert RenderComponent(cs, 'S') == cs.value + ['S'] + "";
    }
  }

  lemma MinutesGroup(cm: Option<string>, cs: Option<string>)
    requires ValidComponent(cm) && ValidComponent(cs)
    ensures Component(RenderComponent(cm, 'M') + RenderComponent(cs, 'S'), 'M') == (cm, RenderComponent(cs, 'S'))
  {
    var c := RenderComponent(cs, 'S');
    if cm.Some? {
      ComponentAt(cm.value, 'M', c, 'M');
    } else if cs.Some? {
      ComponentAt(cs.value, 'S', "", 'M');
      assert c == cs.value + ['S'] + "";
      assert RenderComponent(cm, 'M') + c == c;
    } else {
      assert RenderComponent(cm, 'M') + c == "";
    }
  }

  lemma HoursGroup(ch: Option<string>, cm: Option<string>, cs: Option<string>)
    requires ValidComponent(ch) && ValidComponent(cm) && ValidComponent(cs)
    ensures Component(RenderComponent(ch, 'H') + (RenderComponent(cm, 'M') + RenderComponent(cs, 'S')), 'H')
      == (ch, RenderComponent(cm, 'M') + RenderComponent(cs, 'S'))
  {
    var b := RenderComponent(cm, 'M');
    var c := RenderComponent(cs, 'S');
    if ch.Some? {
      ComponentAt(ch.value, 'H', b + c, 'H');
    } else if cm.Some? {
      ComponentAt(cm.value, 'M', c, 'H');
      assert RenderComponent(ch, 'H') + (b + c) == cm.value + ['M'] + c;
    } else if cs.Some? {
      ComponentAt(cs.value, 'S', "", 'H');
      assert c == cs.value + ['S'] + "";
      assert b + c == c;
      assert RenderComponent(ch, 'H') + (b + c) == c;
    } else {
      assert RenderComponent(ch, 'H') + (b + c) == "";
    }
  }

  /** Rendering then matching gives the duration back. */
  lemma ParseRender(d: Duration)
    requires ValidDuration(d)
    ensures ParseDuration(Render(d)) == Some(d)
  {
    if d.time.Some? {
      var tp := d.time.value;
      var s := Render(d);
      var x := RenderComponent(tp.hours, 'H') + (RenderComponent(tp.minutes, 'M') + RenderComponent(tp.seconds, 'S'));
      assert s == "PT" + x;
      assert s[2..] == x;
      HoursGroup(tp.hours, tp.minutes, tp.seconds);
      MinutesGroup(tp.minutes, tp.seconds);
      SecondsGroup(tp.seconds);
    }
  }

  lemma UpperConcat(x: string, y: string)
    ensures UpperString(x + y) == UpperString(x) + UpperString(y)
  {
  }

  lemma UpperDigits(d: string)
    requires AllDigits(d)
    ensures UpperString(d) == d
  {
  }

  /** What one optional group consumed, in upper case, is its rendering. */
  lemma ComponentSound(s: string, unit: char)
    requires unit in "HMS"
    ensures ValidComponent(Component(s, unit).0)
    ensures UpperString(s) == RenderComponent(Component(s, unit).0, unit) + UpperString(Component(s, unit).1)
    ensures |Component(s, unit).1| <= |s|
  {
    var n := DigitRun(s);
    if 0 < n < |s| && Upper(s[n]) == unit {
      assert s == s[..n] + [s[n]] + s[n + 1..];
      UpperConcat(s[..n] + [s[n]], s[n + 1..]);
      UpperConcat(s[..n], [s[n]]);
      UpperDigits(s[..n]);
      assert UpperString([s[n]]) == [unit];
      assert Component(s, unit) == (Some(s[..n]), s[n + 1..]);
    }
  }

  /** The time groups of a match, read back in upper case. */
  lemma TimeSound(t: string)
    requires Component(Component(Component(t, 'H').1, 'M').1, 'S').1 == ""
    ensures ValidComponent(Component(t, 'H').0)
    ensures ValidComponent(Component(Component(t, 'H').1, 'M').0)
    ensures ValidComponent(Component(Component(Component(t, 'H').1, 'M').1, 'S').0)
    ensures UpperString(t) ==
      RenderComponent(Component(t, 'H').0, 'H')
      + (RenderComponent(Component(Component(t, 'H').1, 'M').0, 'M')
         + RenderComponent(Component(Component(Component(t, 'H').1, 'M').1, 'S').0, 'S'))
  {
    var c1 := Component(t, 'H');
    var c2 := Component(c1.1, 'M');
    var c3 := Component(c2.1, 'S');
    ComponentSound(t, 'H');
    ComponentSound(c1.1, 'M');
    ComponentSound(c2.1, 'S');
    var a := RenderComponent(c1.0, 'H');
    var b := RenderComponent(c2.0, 'M');
    var c := RenderComponent(c3.0, 'S');
    assert UpperString(t) == a + (b + (c + UpperString(c3.1)));
    assert UpperString(c3.1) == [];
    assert c + [] == c;
  }

  /** A matched string is, up to case, the rendering of a valid duration. */
  lemma ParseSound(s: string)
    requires ParseDuration(s).Some?
    ensures ValidDuration(ParseDuration(s).value)
    ensures Render(ParseDuration(s).value) == UpperString(s)
  {
    if |s| > 1 {
      var t := s[2..];
      TimeSound(t);
      assert s == s[..2] + t;
      UpperConcat(s[..2], t);
      assert UpperString(s[..2]) == "PT";
    } else {
      assert UpperString(s) == "P";
    }
  }

  lemma {:induction false} DigitRunUpper(s: string)
    ensures DigitRun(UpperString(s)) == DigitRun(s)
    decreases |s|
  {
    if s != [] {
      assert UpperString(s)[1..] == UpperString(s[1..]);
      DigitRunUpper(s[1..]);
    }
  }

  lemma ComponentUpper(s: string, unit: char)
    requires unit in "HMS"
    ensures Component(UpperString(s), unit) == (Component(s, unit).0, UpperString(Component(s, unit).1))
  {
    DigitRunUpper(s);
    var n := DigitRun(s);
    assert Upper(Upper('a')) == Upper('a');
    if 0 < n < |s| {
      assert Upper(UpperString(s)[n]) == Upper(s[n]);
      if Upper(s[n]) == unit {
        assert UpperString(s)[..n] == UpperString(s[..n]);
        UpperDigits(s[..n]);
        assert UpperString(s)[n + 1..] == UpperString(s[n + 1..]);
      }
    }
  }

  /** Matching is insensitive to case. */
  lemma ParseUpper(s: string)
    ensures ParseDuration(UpperString(s)) == ParseDuration(s)
  {
    var u := UpperString(s);
    if |s| >= 2 && Upper(s[0]) == 'P' && Upper(s[1]) == 'T' {
      assert Upper(u[0]) == 'P' && Upper(u[1]) == 'T';
      assert u[2..] == UpperString(s[2..]);
      var (h, r1) := Component(s[2..], 'H');
      var (m, r2) := Component(r1, 'M');
      ComponentUpper(s[2..], 'H');
      ComponentUpper(r1, 'M');
      ComponentUpper(r2, 'S');
    } else if |s| >= 1 {
      assert Upper(u[0]) == Upper(s[0]);
      if |s| >= 2 {
        assert Upper(u[1]) == Upper(s[1]);
      }
    }
  }

  /**
   * The duration pattern matches exactly the strings that are, up to case,
   * `P`, `PT`, or `PT` followed by hours, minutes and seconds in that order,
   * each optional and each a non-empty run of digits before its letter.
   */
  lemma DurationIff(s: string)
    ensures IsIso8601Duration(s) <==> exists d :: ValidDuration(d) && Render(d) == UpperString(s)
  {
    if IsIso8601Duration(s) {
      ParseSound(s);
    }
    if exists d :: ValidDuration(d) && Render(d) == UpperString(s) {
      var d :| ValidDuration(d) && Render(d) == UpperString(s);
      ParseRender(d);
      ParseUpper(s);
    }
  }

  // ---------------------------------------------------------------------
  // URLs
  // ---------------------------------------------------------------------

  /** Length of the optional group `(https?:)` at the start of `s`, or 0 when it does not match. */
  function SchemeLength(s: string): (n: nat)
    ensures n == 0 || n == 5 || n == 6
    ensures n <= |s|
  {
    if |s| >= 5 && Upper(s[0]) == 'H' && Upper(s[1]) == 'T' && Upper(s[2]) == 'T' && Upper(s[3]) == 'P' then
      if s[4] == ':' then 5
      else if |s| >= 6 && Upper(s[4]) == 'S' && s[5] == ':' then 6
      else 0
    else 0
  }

  predicate StartsWithSlashes(s: string)
  {
    |s| >= 2 && s[0] == '/' && s[1] == '/'
  }

  /** The group is tried first; if `//` does not follow it, the match retries without it. */
  predicate IsValidUrl(s: string)
  {
    StartsWithSlashes(s[SchemeLength(s)..]) || StartsWithSlashes(s)
  }

  predicate HasPrefix(s: string, p: string)
  {
    |p| <= |s| && s[..|p|] == p
  }

  /** The URL pattern accepts exactly the strings that begin, up to case, with `//`, `http://` or `https://`. */
  lemma UrlIff(s: string)
    ensures IsValidUrl(s) <==>
      HasPrefix(UpperString(s), "//") || HasPrefix(UpperString(s), "HTTP://") || HasPrefix(UpperString(s), "HTTPS://")
  {
    var u := UpperString(s);
    assert Upper('/') == '/' && Upper(':') == ':';
    if HasPrefix(u, "//") {
      assert u[0] == '/' && u[1] == '/';
    }
    if HasPrefix(u, "HTTP://") {
      assert u[..7][4] == ':' && u[..7][5] == '/' && u[..7][6] == '/';
      assert u[0] == 'H' && u[1] == 'T' && u[2] == 'T' && u[3] == 'P';
      assert s[4] == ':' && s[5] == '/' && s[6] == '/';
    }
    if HasPrefix(u, "HTTPS://") {
      assert u[..8][4] == 'S' && u[..8][5] == ':' && u[..8][6] == '/' && u[..8][7] == '/';
      assert u[0] == 'H' && u[1] == 'T' && u[2] == 'T' && u[3] == 'P';
      assert s[5] == ':' && s[6] == '/' && s[7] == '/';
    }
    if StartsWithSlashes(s) {
      assert u[..2] == "//";
    }
    var n := SchemeLength(s);
    if StartsWithSlashes(s[n..]) && n == 5 {
      assert u[..7] == "HTTP://";
    }
    if StartsWithSlashes(s[n..]) && n == 6 {
      assert u[..8] == "HTTPS://";
    }
  }

  /** No string is both a duration and a URL, so the order of the two checks is immaterial. */
  lemma DurationIsNotUrl(s: string)
    ensures !(IsIso8601Duration(s) && IsValidUrl(s))
  {
  }
}
