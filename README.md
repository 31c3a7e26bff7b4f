# Pixel-grid drawing page, modelled in Dafny

`app.js` builds a grid of square cells that fills the width of the window, 100 cells
per row, and a picker of twenty random colours. Pressing the mouse on a cell paints it
with the selected colour, and dragging with the button held paints every cell the
pointer enters. A cell that already shows the selected colour is meant to be reset to
white; the page does so only when the colour's blue digits are decimal (see Findings). A
right click opens the picker, and clicking one of its entries selects that colour.

The model has these parts:

- `text.dfy` (module `Text`) holds the JavaScript string operations the page relies on: the
  ECMAScript `\s` character class, ASCII `toUpperCase`, and `String.prototype.search` for a
  literal pattern, here `IndexOf`.
- `radix.dfy` (module `Radix`) holds `parseInt` on a decimal digit string, decimal and
  hexadecimal rendering (`toString(16)` writes lower-case digits), `slice(-2)`, and the
  page's inner `hex` helper.
- `rgb.dfy` (module `Rgb`) models the regular expression
  `^rgba?\((\d+),\s*(\d+),\s*(\d+)(?:,\s*(\d+))?\)$` in two halves:
  - a deterministic matcher, `MatchRgb`;
  - a renderer, `Render`, that spells out the language of the pattern.

  Each half is proved to invert the other, and `Rgb2Hex` is built on them.
- `browser.dfy` (module `Browser`) models how the browser reports an inline background
  colour that was written as `#RRGGBB`: it reads back as `rgb(r, g, b)`. The page relies
  on this when it normalises the colour it reads from a cell.
- `paint.dfy` (module `Paint`) holds `toggleStatesCell` and the paint/reset cycle.
- `palette.dfy` (module `Palette`) holds `generateColor` and the shape of palette colours.
- `geometry.dfy` (module `Geometry`) holds `cellSize`, `totalCellY` and `totalCell`.
- `session.dfy` (module `Session`) holds the state object as a class. Its constructor is
  `initState`, its `Init` method is `init`, and `App` runs the two in order, as the page
  does on load. Each event handler is a method, and every handler keeps the invariant
  `Valid()`.
- `corrected.dfy` (module `Corrected`) holds the normalisation as evidently intended (see
  Findings).
- `results.dfy` (module `Results`) holds `Option` and `Result`.

The page throws a `TypeError` when `rgb2hex` is given a string that mentions `rgb` but
that the pattern does not match (`rgb[1]` of `null`). The model returns `Err(NoMatch)`
there. One might expect such strings to be left unchanged; the code throws, and the model
follows the code. The session invariant proves that no reported background ever reaches
that error.

## Model

| member | source | states |
|---|---|---|
| Text.ToUpperCase | app.js:64 | keeps the length and upper-cases each ASCII letter, leaving every other character as it is |
| Text.ToUpperCaseDigits | app.js:64 | upper-casing a string of decimal digits leaves it unchanged, so `rgb[3].toUpperCase()` changes nothing |
| Text.IndexOf | app.js:57 | `search` for a literal: -1 exactly when the pattern occurs nowhere; otherwise the first position where it occurs |
| Radix.ParseDecimal | app.js:62 | `parseInt` of a digit string without leading zeros is the number whose decimal rendering is that string |
| Radix.Decimal | app.js:74 | the browser's decimal rendering of each channel of the background read here, which `Browser.ReadBack` uses: a non-empty digit string without a leading zero; `parseInt` (app.js line 62) is its inverse |
| Radix.DecimalRoundTrip | app.js:62 | `parseInt` of the decimal rendering of n gives back n |
| Radix.ToHex | app.js:62 | `toString(16)` gives a non-empty string of lower-case hex digits without a leading zero |
| Radix.ToHexRoundTrip | app.js:62 | reading back the hex rendering of n gives n |
| Radix.SliceLast2 | app.js:62 | `slice(-2)`: the last two characters of a string of two or more, and the whole of a shorter one |
| Radix.Hex | app.js:61-63 | `hex(x)` is two lower-case hex digits whose value is `parseInt(x)` modulo 256 |
| Radix.HexIsLowerByte | app.js:61-63 | `hex(x)` is the two lower-case hex digits of `parseInt(x)` modulo 256 |
| Radix.UpperHexIsUpperByte | app.js:64 | `hex(x).toUpperCase()` is the two upper-case hex digits of `parseInt(x)` modulo 256 |
| Rgb.Render | app.js:60 | every string in the pattern's language starts with `rgb` and ends with `)`, as the anchored pattern demands |
| Rgb.MatchRgb | app.js:60 | every match it returns is well formed and spells out exactly the input |
| Rgb.MatchRgbComplete | app.js:60 | every string in the pattern's language is matched, with its own groups |
| Rgb.MatchedStringMentionsRgb | app.js:57-60 | a string the pattern matches is found by `search("rgb")` at position 0 |
| Rgb.Rgb2Hex | app.js:56-66 | unchanged when `rgb` does not occur; throws exactly when it occurs and the pattern fails; otherwise `#`, then red and green in upper-case hex, then blue in lower-case hex |
| Rgb.AlphaIgnored | app.js:60-64 | the optional fourth group does not affect the result |
| Browser.ReadBack | app.js:86 | a colour written as `#RRGGBB` is reported as an `rgb(r, g, b)` string that the pattern matches |
| Browser.PairBytes | app.js:62-64 | the byte two hex digits write is formatted back as those two digits, upper- or lower-cased |
| Browser.NormaliseReadBack | app.js:64 | normalising the reported form of `#c1c2c3c4c5c6` gives the first four digits upper-cased and the last two lower-cased |
| Paint.ToggleStatesCell | app.js:69-80 | empty background gives the selected colour; a background that normalises to the selected colour gives the default; anything else gives the selected colour; throws exactly when `rgb2hex` does on a non-empty background |
| Paint.ReadBackNormalisesToSelf | app.js:64 | the reported form of a palette colour normalises back to it if and only if its blue digits are decimal |
| Paint.ToggleAfterPaint | app.js:69-80 | a cell showing the selected colour is reset to the default only when blue is decimal, and otherwise keeps the selected colour |
| Paint.ToggleAfterReset | app.js:69-80 | a cell reset to a default colour whose last digit is a letter takes the selected palette colour at the next paint |
| Paint.DefaultResetsToSelected | app.js:6 | the page's default, `#FFFFFF`, is such a colour: a reset cell takes the selected colour at the next paint |
| Paint.NormaliseDeviceForm | app.js:60-64 | `rgb(170,0,0)`, written without spaces, normalises to `#AA0000` |
| Paint.DeviceFormOfSelectedColorResets | app.js:74-75 | a cell reporting `rgb(170,0,0)` while `#AA0000` is selected is reset to the default |
| Palette.ColorOf | app.js:111-118 | six digit indices spell `#` and six upper-case hex digits, digit i having value index i |
| Palette.ColorOfIndicesOf | app.js:111-118 | every palette-shaped colour is generated by exactly its own digit indices |
| Palette.IndicesOfColorOf | app.js:111-118 | distinct draws give distinct colours: the indices are recovered from the colour |
| Palette.GenerateColor | app.js:111-118 | the loop appends six digits from `letters` and returns `ColorOf` of the draws |
| Palette.Rgb2HexKeepsPaletteColor | app.js:57-58 | `rgb2hex` returns a palette colour unchanged |
| Geometry.CellSize | app.js:9 | a row of 100 cells spans the viewport width exactly |
| Geometry.TotalCellY | app.js:10 | `Math.floor(h / cellSize())` is the integer quotient `100*h div w` for a positive width, and no rows for an empty viewport |
| Geometry.TotalCellYFits | app.js:10 | the rows fit in the viewport height, and one more row would not |
| Geometry.TotalCell | app.js:11 | the cell count is a whole number of rows of 100 cells, `(100*h div w) * 100`, and none for an empty viewport |
| Geometry.Grid1000By500 | app.js:9-11 | a 1000x500 viewport gives 10-pixel cells, 50 rows, 5000 cells |
| Corrected.Rgb2HexIntended | app.js:64 | like `rgb2hex`, but with all three channels in upper-case hex |
| Corrected.IntendedNormaliseReadBackChars | app.js:64 | corrected, the reported form of `#c1c2c3c4c5c6` normalises to all six digits upper-cased |
| Corrected.IntendedNormaliseReadBack | app.js:64 | the reported form of every palette colour normalises back to that colour |
| Corrected.ToggleStatesCellIntended | app.js:69-80 | `toggleStatesCell` over the corrected normalisation, with the same cases |
| Corrected.IntendedToggleAfterPaint | app.js:74-75 | with the correction, painting a cell twice with any palette colour resets it |
| Corrected.BlueLetterDefeatsReset | app.js:64 | as written, a cell painted `#0000AB` is not reset by a second paint with `#0000AB` |
| Session.Colors | app.js:120-124 | one generated colour per draw, in order |
| Session.ShownPaintable | app.js:71-75 | no background a cell can show (none, or the reported form of a palette-shaped colour) makes `rgb2hex` throw |
| Session.Repaint | app.js:86 | a painted cell reports the selected colour or the default colour; when `toggleStatesCell` throws, it keeps its background |
| Session.RepaintPaintable | app.js:71-75 | a painted cell never makes `rgb2hex` throw when it is painted again |
| Session.RepaintTwice | app.js:71-79 | the first paint of an empty cell gives the colour; the second resets it only when blue is decimal |
| Session.RepaintAfterReset | app.js:74-78 | a cell reset to a default whose last digit is a letter takes the selected colour at the next paint |
| Session.Session.constructor | app.js:3-20 | the initial state: viewport dimensions, default `#FFFFFF`, no cells, no palette, no selected colour, button up, pointer at (0, 0), picker hidden |
| Session.Session.Init | app.js:158-164 | `totalCell()` unpainted cells with ids 0 onwards, twenty colours from the draws with the first selected, no entry active, and the session invariant established |
| Session.App | app.js:189 | `initState()` followed by `init()` yields a valid session with every cell unpainted, the button up and the picker hidden |
| Session.Session.GenerateCell | app.js:43-47 | appends ids 0 to `totalCell()`-1 in order |
| Session.Session.InsertCell | app.js:50-54 | one unpainted cell per id |
| Session.Session.PaletteColor | app.js:120-124 | appends `maxPaletteColor` generated colours, one per draw |
| Session.Session.ColorComponentList | app.js:139-149 | one picker entry per palette colour, none active |
| Session.Session.CellsPaintable | app.js:71-75 | in a valid session no cell's background makes `rgb2hex` throw, so no handler throws |
| Session.Session.PaintCell | app.js:86 | the target cell takes `toggleStatesCell`'s colour as the browser reports it; the other cells are unchanged; the invariant holds |
| Session.Session.HandleMousedown | app.js:83-87 | painting starts and the target cell is painted; the other cells are unchanged |
| Session.Session.HandleMouseover | app.js:89-108 | records the pointer; moves the picker 5 px up and left of it; closes the picker unless the pointer came from it; paints the target only while the button is held |
| Session.Session.HandleMouseup | app.js:173-175 | painting stops |
| Session.Session.ShowPalette | app.js:152-155 | the picker opens and is marked visible, as a right click does (app.js lines 178-181) |
| Session.Session.HandlePaletteColor | app.js:126-136 | the clicked entry's colour is selected, it becomes the only active entry, the picker closes, and the visibility flag is kept |
| Session.Drag | app.js:168-175 | mousedown on a, mouseover on b, mouseup, mouseover on c paints a, then b, and nothing else |

## Left out

- The DOM itself is not modelled:
  - creating and cloning the `span` elements (`createCell`, and the clones that
    `insertCell` appends);
  - the picker entries' elements and their background style (`colorComponentList`);
  - the event wiring in `init`, `preventDefault`, `window.appState` and the `load`
    listener.

  A cell is identified by its id and a picker click by its entry's index. What these
  functions leave in the state is modelled: one unpainted cell per id, and one inactive
  entry per colour.
- Cell sizes written into the style (`createCell`'s width and height) are not modelled;
  `Geometry.CellSize` states the size they carry.
- `Math.random` is a parameter: each colour is given as six digit indices in 0..15.
- `window.innerWidth` and `window.innerHeight` are constructor parameters. The page does
  not react to resizing, so they stay constant.
- Geometry.Finite: with a width of 0 and a positive height, `totalCellY()` is `Infinity`
  and the loop of `generateCell` never ends, so the page hangs. The model requires a
  positive width or a zero height of `TotalCellY`, `TotalCell`, `Session.Session.Init`,
  `Session.Session.GenerateCell` and `Session.App`. With both 0, `totalCellY()` is `NaN`,
  no index compares below it, and the model gives the page's empty grid.
- Geometry.TotalCellY: computes with exact rationals. IEEE double rounding of `w / 100`
  and `h / cellSize` is not modelled, and near an exact multiple it could move the floor
  by one.
- Rgb2Hex: `parseInt` is exact on unbounded integers. Doubles lose precision beyond
  2^53, so very long digit groups are not modelled as the engine rounds them.
- Text.ToUpperCase: only ASCII letters are upper-cased. The full Unicode mapping is not
  modelled, because only ASCII decimal digits and the hex letters a-f reach it.
- Browser.ReadBack: the browser's serialisation of a written colour is an assumption
  about the environment, not code of the page. Other CSS colour syntaxes are left as
  written.
- The picker's initial markup is taken to carry no `open` class. The stylesheet and
  `index.html` are not part of this model.
- Session.RepaintAfterReset: stated for any palette-form default colour whose last digit is
  a letter, which includes `#FFFFFF`. The page's fixed default is covered by
  `Paint.DefaultResetsToSelected`.
- Session.Session.Init: requires the state `initState()` built (no cells, no palette yet).
  `init` runs once, on that state.

## Findings

| source | as written | input that shows it | evidently intended | confidence | as-written member | corrected member |
|---|---|---|---|---|---|---|
| app.js:64 | `hex(rgb[3].toUpperCase())` upper-cases blue's decimal digits before conversion, so blue comes out in lower-case hex | a cell painted `#0000AB` reports `rgb(0, 0, 171)`, which normalises to `#0000ab`; painting it again with `#0000AB` keeps `#0000AB` instead of resetting it | `hex(rgb[3]).toUpperCase()`, so every palette colour normalises back to itself and a second paint resets the cell | not executed | Corrected.BlueLetterDefeatsReset | Corrected.IntendedToggleAfterPaint |

The session (`Session.Session`) keeps the rule as written, because it models the page as
it behaves. `Paint.ToggleAfterPaint` and `Session.RepaintTwice` state exactly when the
reset happens. The corrected definitions `Corrected.Rgb2HexIntended`,
`Corrected.IntendedNormaliseReadBack` and `Corrected.ToggleStatesCellIntended` give the
intended behaviour.
