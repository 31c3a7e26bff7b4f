/**
 * `rgb2hex` of app.js: a colour string that mentions "rgb" is matched against
 * `^rgba?\((\d+),\s*(\d+),\s*(\d+)(?:,\s*(\d+))?\)$` and rewritten as `#` and two
 * hex digits per channel; any other string is returned as it is.
 */
module Rgb {
  import opened Results
  import opened Text
  import opened Radix

  /** The optional fourth group `,\s*(\d+)`. */
  datatype Alpha = Alpha(space: string, digits: string)

  /**
   * One match of the regular expression: whether it began `rgba`, the three captured
   * channels, the `\s*` runs that preceded green and blue, and the optional fourth group.
   */
  datatype RgbMatch = RgbMatch(rgba: bool, red: string, space1: string, green: string,
                               space2: string, blue: string, alpha: Option<Alpha>)

  /** What `rgb2hex` throws: the match is null, and `rgb[1]` is read from it. */
  datatype Error = NoMatch

  /** The parts of a match are what the regular expression allows in each place. */
  predicate WellFormed(m: RgbMatch) {
    && |m.red| > 0 && AllDigits(m.red)
    && |m.green| > 0 && AllDigits(m.green)
    && |m.blue| > 0 && AllDigits(m.blue)
    && AllSpaces(m.space1) && AllSpaces(m.space2)
    && (m.alpha.Some? ==> |m.alpha.value.digits| > 0 && AllDigits(m.alpha.value.digits)
                          && AllSpaces(m.alpha.value.space))
  }

  function AlphaText(a: Option<Alpha>): string {
    match a
    case None => ""
    case Some(x) => "," + x.space + x.digits
  }

  /** The text from the blue channel to the closing parenthesis. */
  function BlueText(blue: string, alpha: Option<Alpha>): string {
    blue + AlphaText(alpha) + ")"
  }

  /** The text from the green channel to the closing parenthesis. */
  function GreenText(green: string, space2: string, blue: string, alpha: Option<Alpha>): string {
    green + "," + space2 + BlueText(blue, alpha)
  }

  /** The text after the opening parenthesis. */
  function ChannelsText(m: RgbMatch): string {
    m.red + "," + m.space1 + GreenText(m.green, m.space2, m.blue, m.alpha)
  }

  /** The text that a match spans: the whole input, since the pattern is anchored at both ends. */
  function Render(m: RgbMatch): (r: string)
    ensures |r| >= 4 && r[..3] == "rgb" && r[|r| - 1] == ')'
  {
    "rgb" + (if m.rgba then "a" else "") + "(" + ChannelsText(m)
  }

  /** Length of the longest prefix of decimal digits. */
  function DigitRun(s: string): (n: nat)
    ensures n <= |s| && AllDigits(s[..n])
    ensures n < |s| ==> !IsDigit(s[n])
  {
    if |s| > 0 && IsDigit(s[0]) then
      var k := DigitRun(s[1..]);
      assert s[..k + 1] == [s[0]] + s[1..][..k];
      k + 1
    else 0
  }

  /** Length of the longest prefix of `\s` characters. */
  function SpaceRun(s: string): (n: nat)
    ensures n <= |s| && AllSpaces(s[..n])
    ensures n < |s| ==> !IsJsSpace(s[n])
  {
    if |s| > 0 && IsJsSpace(s[0]) then
      var k := SpaceRun(s[1..]);
      assert s[..k + 1] == [s[0]] + s[1..][..k];
      k + 1
    else 0
  }

  /** `(\d+)` at the front of `s`: the captured digits and what follows them. */
  function Digits(s: string): (r: Option<(string, string)>)
    ensures r.Some? ==> |r.value.0| > 0 && AllDigits(r.value.0) && s == r.value.0 + r.value.1
    ensures r.None? ==> s == [] || !IsDigit(s[0])
  {
    var n := DigitRun(s);
    if n == 0 then None else Some((s[..n], s[n..]))
  }

  /** `\s*` at the front of `s`: the spaces and what follows them. */
  function Spaces(s: string): (r: (string, string))
    ensures AllSpaces(r.0) && s == r.0 + r.1
    ensures r.1 == [] || !IsJsSpace(r.1[0])
  {
    var n := SpaceRun(s);
    (s[..n], s[n..])
  }

  /** `(?:,\s*(\d+))?\)$` after the blue channel. */
  function MatchTail(s: string): (r: Option<Option<Alpha>>)
    ensures r.Some? ==> s == AlphaText(r.value) + ")"
    ensures r.Some? && r.value.Some? ==>
              && |r.value.value.digits| > 0
              && AllDigits(r.value.value.digits)
              && AllSpaces(r.value.value.space)
  {
    if s == ")" then Some(None)
    else if |s| > 0 && s[0] == ',' then
      var (sp, t) := Spaces(s[1..]);
      match Digits(t)
      case None => None
      case Some((a, u)) => if u == ")" then Some(Some(Alpha(sp, a))) else None
    else None
  }

  /** `(\d+)` for blue and the tail. */
  function MatchBlue(s: string): (r: Option<(string, Option<Alpha>)>)
    ensures r.Some? ==> s == BlueText(r.value.0, r.value.1)
    ensures r.Some? ==> |r.value.0| > 0 && AllDigits(r.value.0)
    ensures r.Some? && r.value.1.Some? ==>
              && |r.value.1.value.digits| > 0
              && AllDigits(r.value.1.value.digits)
              && AllSpaces(r.value.1.value.space)
  {
    match Digits(s)
    case None => None
    case Some((blue, t)) =>
      match MatchTail(t)
      case None => None
      case Some(alpha) => Some((blue, alpha))
  }

  /** Reassembles `s` from a captured group, the comma after it, a run of spaces and the rest. */
  lemma SplitAtComma(s: string, group: string, t: string, space: string, u: string)
    requires s == group + t && |t| > 0 && t[0] == ',' && t[1..] == space + u
    ensures s == group + "," + space + u
  {
    assert t == "," + space + u;
  }

  /** `(\d+),\s*` for green, then blue and the tail. */
  function MatchGreen(s: string): (r: Option<(string, string, string, Option<Alpha>)>)
    ensures r.Some? ==> s == GreenText(r.value.0, r.value.1, r.value.2, r.value.3)
    ensures r.Some? ==> |r.value.0| > 0 && AllDigits(r.value.0) && AllSpaces(r.value.1)
    ensures r.Some? ==> |r.value.2| > 0 && AllDigits(r.value.2)
    ensures r.Some? && r.value.3.Some? ==>
              && |r.value.3.value.digits| > 0
              && AllDigits(r.value.3.value.digits)
              && AllSpaces(r.value.3.value.space)
  {
    match Digits(s)
    case None => None
    case Some((green, t)) =>
      if |t| == 0 || t[0] != ',' then None else
      var (sp2, u) := Spaces(t[1..]);
      match MatchBlue(u)
      case None => None
      case Some((blue, alpha)) =>
        SplitAtComma(s, green, t, sp2, u);
        Some((green, sp2, blue, alpha))
  }

  /** `(\d+),\s*` for red, then green, blue and the tail, after `rgb(` or `rgba(`. */
  function MatchChannels(rgba: bool, s: string): (r: Option<RgbMatch>)
    ensures r.Some? ==> WellFormed(r.value) && r.value.rgba == rgba && ChannelsText(r.value) == s
  {
    match Digits(s)
    case None => None
    case Some((red, t)) =>
      if |t| == 0 || t[0] != ',' then None else
      var (sp1, u) := Spaces(t[1..]);
      match MatchGreen(u)
      case None => None
      case Some((green, sp2, blue, alpha)) =>
        SplitAtComma(s, red, t, sp1, u);
        Some(RgbMatch(rgba, red, sp1, green, sp2, blue, alpha))
  }

  /**
   * `s.match(/^rgba?\((\d+),\s*(\d+),\s*(\d+)(?:,\s*(\d+))?\)$/)`. Every match it
   * returns spans the whole input (soundness, stated here); every well-formed match is
   * found again from its text (completeness, lemma MatchRgbComplete).
   */
  function MatchRgb(s: string): (r: Option<RgbMatch>)
    ensures r.Some? ==> WellFormed(r.value) && Render(r.value) == s
  {
    if |s| < 4 || s[..3] != "rgb" then None
    else
      var rgba := s[3] == 'a';
      var t := if rgba then s[4..] else s[3..];
      if |t| == 0 || t[0] != '(' then None
      else
        assert s == "rgb" + (if rgba then "a" else "") + "(" + t[1..];
        MatchChannels(rgba, t[1..])
  }

  lemma {:induction false} DigitRunComplete(d: string, t: string)
    requires AllDigits(d) && (t == [] || !IsDigit(t[0]))
    ensures DigitRun(d + t) == |d|
  {
    if d != [] {
      assert (d + t)[1..] == d[1..] + t;
      DigitRunComplete(d[1..], t);
    }
  }

  lemma {:induction false} SpaceRunComplete(sp: string, t: string)
    requires AllSpaces(sp) && (t == [] || !IsJsSpace(t[0]))
    ensures SpaceRun(sp + t) == |sp|
  {
    if sp != [] {
      assert (sp + t)[1..] == sp[1..] + t;
      SpaceRunComplete(sp[1..], t);
    }
  }

  /** `(\d+)` captures every digit of a run that is followed by a non-digit. */
  lemma DigitsComplete(d: string, t: string)
    requires |d| > 0 && AllDigits(d) && (t == [] || !IsDigit(t[0]))
    ensures Digits(d + t) == Some((d, t))
  {
    DigitRunComplete(d, t);
    assert (d + t)[..|d|] == d && (d + t)[|d|..] == t;
  }

  /** `\s*` consumes every space of a run that is followed by a digit. */
  lemma SpacesBeforeDigits(sp: string, t: string)
    requires AllSpaces(sp) && |t| > 0 && IsDigit(t[0])
    ensures Spaces(sp + t) == (sp, t)
  {
    SpaceRunComplete(sp, t);
    assert (sp + t)[..|sp|] == sp && (sp + t)[|sp|..] == t;
  }

  /** How `group + "," + space + u` splits at its comma. */
  lemma CommaSplit(group: string, space: string, u: string)
    ensures var t := "," + space + u;
            && group + "," + space + u == group + t
            && |t| > 0 && t[0] == ',' && t[1..] == space + u
  {
  }

  /** How the text of a match splits after `rgb(` or `rgba(`. */
  lemma OpeningSplit(rgba: bool, body: string)
    ensures var s := "rgb" + (if rgba then "a" else "") + "(" + body;
            && |s| >= 4 && s[..3] == "rgb" && (s[3] == 'a' <==> rgba)
            && var t := if rgba then s[4..] else s[3..];
               |t| > 0 && t[0] == '(' && t[1..] == body
  {
  }

  lemma MatchTailComplete(alpha: Option<Alpha>)
    requires alpha.Some? ==> |alpha.value.digits| > 0 && AllDigits(alpha.value.digits)
                             && AllSpaces(alpha.value.space)
    ensures MatchTail(AlphaText(alpha) + ")") == Some(alpha)
  {
    if alpha.Some? {
      var sp, a := alpha.value.space, alpha.value.digits;
      var s := AlphaText(alpha) + ")";
      assert s[1..] == sp + (a + ")");
      SpacesBeforeDigits(sp, a + ")");
      DigitsComplete(a, ")");
    }
  }

  lemma MatchBlueComplete(blue: string, alpha: Option<Alpha>)
    requires |blue| > 0 && AllDigits(blue)
    requires alpha.Some? ==> |alpha.value.digits| > 0 && AllDigits(alpha.value.digits)
                             && AllSpaces(alpha.value.space)
    ensures MatchBlue(BlueText(blue, alpha)) == Some((blue, alpha))
  {
    assert BlueText(blue, alpha) == blue + (AlphaText(alpha) + ")");
    DigitsComplete(blue, AlphaText(alpha) + ")");
    MatchTailComplete(alpha);
  }

  lemma MatchGreenComplete(green: string, space2: string, blue: string, alpha: Option<Alpha>)
    requires |green| > 0 && AllDigits(green) && AllSpaces(space2)
    requires |blue| > 0 && AllDigits(blue)
    requires alpha.Some? ==> |alpha.value.digits| > 0 && AllDigits(alpha.value.digits)
                             && AllSpaces(alpha.value.space)
    ensures MatchGreen(GreenText(green, space2, blue, alpha)) == Some((green, space2, blue, alpha))
  {
    var u := BlueText(blue, alpha);
    var t := "," + space2 + u;
    CommaSplit(green, space2, u);
    DigitsComplete(green, t);
    SpacesBeforeDigits(space2, u);
    MatchBlueComplete(blue, alpha);
  }

  lemma MatchChannelsComplete(m: RgbMatch)
    requires WellFormed(m)
    ensures MatchChannels(m.rgba, ChannelsText(m)) == Some(m)
  {
    var u := GreenText(m.green, m.space2, m.blue, m.alpha);
    var t := "," + m.space1 + u;
    CommaSplit(m.red, m.space1, u);
    DigitsComplete(m.red, t);
    SpacesBeforeDigits(m.space1, u);
    MatchGreenComplete(m.green, m.space2, m.blue, m.alpha);
  }

  /** Completeness of the matcher: the text of every well-formed match is matched, as that match. */
  lemma MatchRgbComplete(m: RgbMatch)
    requires WellFormed(m)
    ensures MatchRgb(Render(m)) == Some(m)
  {
    OpeningSplit(m.rgba, ChannelsText(m));
    MatchChannelsComplete(m);
  }

  /** A string the pattern matches begins with "rgb", so `search("rgb")` finds it. */
  lemma MatchedStringMentionsRgb(s: string)
    ensures MatchRgb(s).Some? ==> IndexOf(s, "rgb") == 0
  {
    if MatchRgb(s).Some? {
      assert OccursAt(s, "rgb", 0) by {
        assert s[0..3] == s[..3];
      }
    }
  }

  /**
   * `rgb2hex(s)`. A string in which "rgb" does not occur comes back unchanged; one in
   * which it occurs but which the pattern does not match throws; a matched string
   * becomes `#`, red and green modulo 256 in upper-case hex, and blue modulo 256 in
   * LOWER-case hex (the page upper-cases blue's decimal digits, not its hex digits).
   * A fourth group, when present, plays no part.
   */
  function Rgb2Hex(s: string): (r: Result<string, Error>)
    ensures IndexOf(s, "rgb") == -1 ==> r == Ok(s)
    ensures r.Err? <==> IndexOf(s, "rgb") != -1 && MatchRgb(s).None?
    ensures MatchRgb(s).Some? ==>
              var m := MatchRgb(s).value;
              r == Ok("#" + UpperByte(ParseDecimal(m.red)) + UpperByte(ParseDecimal(m.green))
                          + LowerByte(ParseDecimal(m.blue)))
  {
    MatchedStringMentionsRgb(s);
    if IndexOf(s, "rgb") == -1 then Ok(s)
    else
      match MatchRgb(s)
      case None => Err(NoMatch)
      case Some(m) =>
        ToUpperCaseDigits(m.blue);
        UpperHexIsUpperByte(m.red);
        UpperHexIsUpperByte(m.green);
        HexIsLowerByte(m.blue);
        Ok("#" + ToUpperCase(Hex(m.red)) + ToUpperCase(Hex(m.green)) + Hex(ToUpperCase(m.blue)))
  }

  /** The optional fourth group is ignored: `rgba(r, g, b, a)` normalises as `rgb(r, g, b)` does. */
  lemma AlphaIgnored(m: RgbMatch)
    requires WellFormed(m)
    ensures Rgb2Hex(Render(m)) == Rgb2Hex(Render(m.(rgba := false, alpha := None)))
  {
    MatchRgbComplete(m);
    MatchRgbComplete(m.(rgba := false, alpha := None));
  }
}
