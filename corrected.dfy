/**
 * `rgb2hex` as evidently intended: all three channels upper-cased, so that the
 * reported form of a palette colour normalises back to that colour.
 */
module Corrected {
  import opened Results
  import opened Text
  import opened Radix
  import opened Rgb
  import opened Browser
  import opened Palette
  import opened Paint

  /** `rgb2hex` with `hex(rgb[3]).toUpperCase()` in place of `hex(rgb[3].toUpperCase())`. */
  function Rgb2HexIntended(s: string): (r: Result<string, Error>)
    ensures IndexOf(s, "rgb") == -1 ==> r == Ok(s)
    ensures r.Err? <==> IndexOf(s, "rgb") != -1 && MatchRgb(s).None?
    ensures MatchRgb(s).Some? ==>
              var m := MatchRgb(s).value;
              r == Ok("#" + UpperByte(ParseDecimal(m.red)) + UpperByte(ParseDecimal(m.green))
                          + UpperByte(ParseDecimal(m.blue)))
  {
    MatchedStringMentionsRgb(s);
    if IndexOf(s, "rgb") == -1 then Ok(s)
    else
      match MatchRgb(s)
      case None => Err(NoMatch)
      case Some(m) =>
        UpperHexIsUpperByte(m.red);
        UpperHexIsUpperByte(m.green);
        UpperHexIsUpperByte(m.blue);
        Ok("#" + ToUpperCase(Hex(m.red)) + ToUpperCase(Hex(m.green)) + ToUpperCase(Hex(m.blue)))
  }

  lemma IntendedNormaliseReadBackBytes(w: string)
    requires IsHexColor(w)
    ensures Rgb2HexIntended(ReadBack(w)) == Ok("#" + UpperByte(Channel(w, 1)) + UpperByte(Channel(w, 3))
                                                   + UpperByte(Channel(w, 5)))
  {
    ReadBackIsRendered(w);
    MatchRgbComplete(ReportedMatch(w));
    DecimalRoundTrip(Channel(w, 1));
    DecimalRoundTrip(Channel(w, 3));
    DecimalRoundTrip(Channel(w, 5));
  }

  /** The corrected `rgb2hex` of the reported form of a written hex colour: all six digits upper-cased. */
  lemma IntendedNormaliseReadBackChars(w: string)
    requires IsHexColor(w)
    ensures Rgb2HexIntended(ReadBack(w)) == Ok(['#', UpperChar(w[1]), UpperChar(w[2]), UpperChar(w[3]),
                                                UpperChar(w[4]), UpperChar(w[5]), UpperChar(w[6])])
  {
    IntendedNormaliseReadBackBytes(w);
    PairBytes(w[1], w[2], Channel(w, 1));
    PairBytes(w[3], w[4], Channel(w, 3));
    PairBytes(w[5], w[6], Channel(w, 5));
    HashAndThreePairs(UpperChar(w[1]), UpperChar(w[2]), UpperChar(w[3]), UpperChar(w[4]),
                      UpperChar(w[5]), UpperChar(w[6]));
  }

  /** The corrected normalisation gives every palette colour back from its reported form. */
  lemma IntendedNormaliseReadBack(c: string)
    requires IsPaletteColor(c)
    ensures Rgb2HexIntended(ReadBack(c)) == Ok(c)
  {
    PaletteColorIsHexColor(c);
    IntendedNormaliseReadBackChars(c);
    UpperFormOfPaletteColor(c);
  }

  /** Upper-casing leaves a palette colour, all of whose letters are capitals, as it is. */
  lemma UpperFormOfPaletteColor(c: string)
    requires IsPaletteColor(c)
    ensures ['#', UpperChar(c[1]), UpperChar(c[2]), UpperChar(c[3]),
             UpperChar(c[4]), UpperChar(c[5]), UpperChar(c[6])] == c
  {
    assert IsUpperHexDigit(c[1]) && IsUpperHexDigit(c[2]) && IsUpperHexDigit(c[3]);
    assert IsUpperHexDigit(c[4]) && IsUpperHexDigit(c[5]) && IsUpperHexDigit(c[6]);
    assert c == [c[0], c[1], c[2], c[3], c[4], c[5], c[6]];
  }

  /** `toggleStatesCell` over the corrected normalisation. */
  function ToggleStatesCellIntended(background: string, currentColor: string, defaultCellColor: string)
    : (r: Result<string, Error>)
    ensures r.Err? <==> background != "" && Rgb2HexIntended(background).Err?
    ensures background == "" ==> r == Ok(currentColor)
    ensures r.Ok? && r.value != currentColor ==> Rgb2HexIntended(background) == Ok(currentColor)
    ensures Rgb2HexIntended(background) == Ok(currentColor) && background != "" ==> r == Ok(defaultCellColor)
  {
    if background == "" then Ok(currentColor)
    else
      match Rgb2HexIntended(background)
      case Err(e) => Err(e)
      case Ok(hex) => if hex == currentColor then Ok(defaultCellColor) else Ok(currentColor)
  }

  /** With the corrected normalisation, painting a cell twice with any palette colour resets it. */
  lemma IntendedToggleAfterPaint(c: string, defaultCellColor: string)
    requires IsPaletteColor(c)
    ensures ToggleStatesCellIntended(ReadBack(c), c, defaultCellColor) == Ok(defaultCellColor)
  {
    IntendedNormaliseReadBack(c);
    PaletteColorIsHexColor(c);
    assert |ReadBack(c)| >= 4;
  }

  /**
   * As written, a cell painted with `#0000AB` and reported as `rgb(0, 0, 171)` is not
   * reset when painted again with `#0000AB`: `rgb2hex` gives `#0000ab`.
   */
  lemma BlueLetterDefeatsReset()
    ensures ToggleStatesCell(ReadBack("#0000AB"), "#0000AB", DefaultCellColor) == Ok("#0000AB")
  {
    ToggleAfterPaint("#0000AB");
  }
}
