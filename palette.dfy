/**
 * `generateColor` of app.js: `#` and six characters of "0123456789ABCDEF", each chosen
 * by `Math.floor(Math.random() * 16)`. The six random indices are supplied by the caller.
 */
module Palette {
  import opened Results
  import opened Text
  import opened Radix
  import opened Rgb
  import Browser

  /** `maxPaletteColor`: the number of colours of the palette. */
  const MaxPaletteColor: nat := 20

  /** Six indices in [0, 16), the values `Math.floor(Math.random() * 16)` can take. */
  predicate IsDigitIndices(d: seq<int>) {
    |d| == 6 && forall i :: 0 <= i < 6 ==> 0 <= d[i] < 16
  }

  /** `#` and six upper-case hex digits: the form `#[0-9A-F]{6}`. */
  predicate IsPaletteColor(c: string) {
    |c| == 7 && c[0] == '#' && forall k :: 1 <= k < 7 ==> IsUpperHexDigit(c[k])
  }

  /** The colour spelled by six digit indices. */
  function ColorOf(d: seq<int>): (c: string)
    requires IsDigitIndices(d)
    ensures IsPaletteColor(c)
    ensures forall i :: 0 <= i < 6 ==> HexDigitValue(c[i + 1]) == d[i]
  {
    "#" + seq(6, i requires 0 <= i < 6 => UpperHexDigit(d[i]))
  }

  /** The digit indices that spell a colour. */
  function IndicesOf(c: string): (d: seq<int>)
    requires IsPaletteColor(c)
    ensures IsDigitIndices(d)
  {
    seq(6, i requires 0 <= i < 6 => HexDigitValue(c[i + 1]))
  }

  /** Every palette colour is spelled by exactly one choice of indices. */
  lemma ColorOfIndicesOf(c: string)
    requires IsPaletteColor(c)
    ensures ColorOf(IndicesOf(c)) == c
  {
    var r := ColorOf(IndicesOf(c));
    forall k | 1 <= k < 7 ensures r[k] == c[k] {
      HexDigitRoundTrip(c[k]);
    }
  }

  lemma IndicesOfColorOf(d: seq<int>)
    requires IsDigitIndices(d)
    ensures IndicesOf(ColorOf(d)) == d
  {
  }

  /** `generateColor()`, with `digits[i]` standing for the i-th random draw. */
  method GenerateColor(digits: seq<int>) returns (color: string)
    requires IsDigitIndices(digits)
    ensures color == ColorOf(digits)
  {
    var letters := "0123456789ABCDEF";
    color := "#";
    for i := 0 to 6
      invariant |color| == i + 1 && color[0] == '#'
      invariant forall k :: 0 <= k < i ==> color[k + 1] == UpperHexDigit(digits[k])
    {
      color := color + [letters[digits[i]]];
    }
  }

  /** A palette colour is a hex colour as the browser reads it. */
  lemma PaletteColorIsHexColor(c: string)
    requires IsPaletteColor(c)
    ensures Browser.IsHexColor(c)
  {
  }

  /** `rgb2hex` returns every palette colour unchanged: "rgb" occurs in none of them. */
  lemma Rgb2HexKeepsPaletteColor(c: string)
    requires IsPaletteColor(c)
    ensures Rgb2Hex(c) == Ok(c)
  {
    forall j | 0 <= j <= |c| - 3 ensures !OccursAt(c, "rgb", j) {
      assert c[j..j + 3][0] == c[j] != 'r';
    }
  }
}
