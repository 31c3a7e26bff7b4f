/**
 * `toggleStatesCell` of app.js: the colour a cell receives when it is painted, chosen
 * from the cell's reported background, the selected colour and the default colour.
 */
module Paint {
  import opened Results
  import opened Text
  import opened Radix
  import opened Rgb
  import opened Browser
  import opened Palette

  /** `defaultCellColor`. */
  const DefaultCellColor: string := "#FFFFFF"

  /**
   * `toggleStatesCell`: a cell without a background takes the selected colour; a cell
   * whose background normalises to the selected colour is reset to the default colour;
   * any other cell takes the selected colour. It throws exactly when the background is
   * not empty and `rgb2hex` throws on it.
   */
  function ToggleStatesCell(background: string, currentColor: string, defaultCellColor: string)
    : (r: Result<string, Error>)
    ensures r.Err? <==> background != "" && Rgb2Hex(background).Err?
    ensures r.Ok? ==> r.value == currentColor || r.value == defaultCellColor
    ensures background == "" ==> r == Ok(currentColor)
    ensures r.Ok? && r.value != currentColor ==> Rgb2Hex(background) == Ok(currentColor)
    ensures Rgb2Hex(background) == Ok(currentColor) && background != "" ==> r == Ok(defaultCellColor)
  {
    if background == "" then Ok(currentColor)
    else
      match Rgb2Hex(background)
      case Err(e) => Err(e)
      case Ok(hex) => if hex == currentColor then Ok(defaultCellColor) else Ok(currentColor)
  }

  /** An upper-case hex digit is unchanged by lower-casing exactly when it is a decimal digit. */
  lemma LowerKeepsUpperHexDigit(c: char)
    requires IsUpperHexDigit(c)
    ensures LowerChar(c) == c <==> IsDigit(c)
  {
  }

  /** What `rgb2hex` makes of the reported form of a hex colour, digit by digit. */
  function NormalisedForm(w: string): (n: string)
    requires |w| == 7
    ensures |n| == 7
  {
    ['#', UpperChar(w[1]), UpperChar(w[2]), UpperChar(w[3]), UpperChar(w[4]),
     LowerChar(w[5]), LowerChar(w[6])]
  }

  /** A palette colour survives normalisation exactly when its blue digits are decimal. */
  lemma NormalisedFormOfPaletteColor(c: string)
    requires IsPaletteColor(c)
    ensures NormalisedForm(c) == c <==> IsDigit(c[5]) && IsDigit(c[6])
  {
    LowerKeepsUpperHexDigit(c[5]);
    LowerKeepsUpperHexDigit(c[6]);
    var n := NormalisedForm(c);
    assert n == c <==> forall k :: 0 <= k < 7 ==> n[k] == c[k];
  }

  /** `rgb2hex` gives a palette colour back from its reported form only when blue is decimal. */
  lemma ReadBackNormalisesToSelf(c: string)
    requires IsPaletteColor(c)
    ensures Rgb2Hex(ReadBack(c)) == Ok(c) <==> IsDigit(c[5]) && IsDigit(c[6])
  {
    PaletteColorIsHexColor(c);
    NormaliseReadBack(c);
    assert Rgb2Hex(ReadBack(c)) == Ok(NormalisedForm(c));
    NormalisedFormOfPaletteColor(c);
  }

  /**
   * Painting a cell that the browser reports as the selected palette colour: it is
   * reset to the default colour only when the blue channel is written with decimal
   * digits alone; otherwise it keeps the selected colour.
   */
  lemma ToggleAfterPaint(c: string)
    requires IsPaletteColor(c)
    ensures ToggleStatesCell(ReadBack(c), c, DefaultCellColor)
            == Ok(if IsDigit(c[5]) && IsDigit(c[6]) then DefaultCellColor else c)
  {
    PaletteColorIsHexColor(c);
    NormaliseReadBack(c);
    ReadBackNormalisesToSelf(c);
    assert ReadBack(c) != "" by {
      assert |ReadBack(c)| >= 4;
    }
  }

  /**
   * Painting a cell that was reset to the default colour gives it the selected palette
   * colour, for a default whose last digit is a letter, as `#FFFFFF`'s is: `rgb2hex`
   * lower-cases that letter, so the reset cell never normalises to a palette colour.
   */
  lemma ToggleAfterReset(c: string, defaultCellColor: string)
    requires IsPaletteColor(c) && IsPaletteColor(defaultCellColor) && !IsDigit(defaultCellColor[6])
    ensures ToggleStatesCell(ReadBack(defaultCellColor), c, defaultCellColor) == Ok(c)
  {
    PaletteColorIsHexColor(defaultCellColor);
    NormaliseReadBack(defaultCellColor);
    assert Rgb2Hex(ReadBack(defaultCellColor)).value[6] == LowerChar(defaultCellColor[6]);
  }

  /** The page's own default colour, `#FFFFFF`, is such a colour. */
  lemma DefaultResetsToSelected(c: string)
    requires IsPaletteColor(c)
    ensures ToggleStatesCell(ReadBack(DefaultCellColor), c, DefaultCellColor) == Ok(c)
  {
    ToggleAfterReset(c, DefaultCellColor);
  }

  lemma RenderDeviceForm()
    ensures Render(RgbMatch(false, "170", "", "0", "", "0", None)) == "rgb(170,0,0)"
  {
    assert BlueText("0", None) == "0)";
    assert GreenText("0", "", "0", None) == "0,0)";
    assert ChannelsText(RgbMatch(false, "170", "", "0", "", "0", None)) == "170,0,0)";
  }

  /** The pattern matches `rgb(170,0,0)` with channels "170", "0" and "0". */
  lemma MatchDeviceForm()
    ensures MatchRgb("rgb(170,0,0)") == Some(RgbMatch(false, "170", "", "0", "", "0", None))
  {
    RenderDeviceForm();
    MatchRgbComplete(RgbMatch(false, "170", "", "0", "", "0", None));
  }

  lemma DeviceFormBytes()
    ensures "#" + UpperByte(ParseDecimal("170")) + UpperByte(ParseDecimal("0"))
              + LowerByte(ParseDecimal("0")) == "#AA0000"
  {
    assert ParseDecimal("1") == 1;
    assert ParseDecimal("17") == 17 by { assert "17"[..1] == "1"; }
    assert ParseDecimal("170") == 170 by { assert "170"[..2] == "17"; }
    assert ParseDecimal("0") == 0;
    assert UpperByte(170) == "AA" && UpperByte(0) == "00" && LowerByte(0) == "00";
  }

  /** `rgb2hex("rgb(170,0,0)")` is `#AA0000`. */
  lemma NormaliseDeviceForm()
    ensures Rgb2Hex("rgb(170,0,0)") == Ok("#AA0000")
  {
    MatchDeviceForm();
    DeviceFormBytes();
  }

  /** The device form of `#AA0000`, `rgb(170,0,0)`, is recognised as `#AA0000` and reset. */
  lemma DeviceFormOfSelectedColorResets()
    ensures ToggleStatesCell("rgb(170,0,0)", "#AA0000", DefaultCellColor) == Ok(DefaultCellColor)
  {
    NormaliseDeviceForm();
  }
}
