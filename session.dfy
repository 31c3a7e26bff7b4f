/**
 * The page's state object and its event handlers: mousedown and mouseover on a cell,
 * mouseup and contextmenu on the document, and click on a palette entry. Each handler
 * runs to completion, so each is one method call on the session.
 */
module Session {
  import opened Results
  import opened Text
  import opened Rgb
  import opened Browser
  import opened Palette
  import opened Paint
  import opened Geometry

  /** `correction`: the picker is placed this many pixels above and left of the pointer. */
  const Correction: int := 5

  /** 0, 1, ..., n - 1: the ids `generateCell` gives its cells. */
  function Ids(n: nat): (ids: seq<nat>)
    ensures |ids| == n && forall i :: 0 <= i < n ==> ids[i] == i
  {
    seq(n, i requires 0 <= i < n => i)
  }

  /** The colours spelled by a sequence of random draws, one colour per draw. */
  function Colors(draws: seq<seq<int>>): (colors: seq<string>)
    requires forall k :: 0 <= k < |draws| ==> IsDigitIndices(draws[k])
    ensures |colors| == |draws|
    ensures forall k :: 0 <= k < |draws| ==> colors[k] == ColorOf(draws[k])
  {
    seq(|draws|, k requires 0 <= k < |draws| => ColorOf(draws[k]))
  }

  /** A reported background on which `toggleStatesCell` does not throw. */
  predicate Paintable(background: string) {
    background == "" || Rgb2Hex(background).Ok?
  }

  lemma ReportedHexColorPaintable(w: string)
    requires IsHexColor(w)
    ensures Paintable(ReadBack(w))
  {
    NormaliseReadBack(w);
  }

  lemma ReportedPaletteColorPaintable(c: string)
    requires IsPaletteColor(c)
    ensures Paintable(ReadBack(c))
  {
    PaletteColorIsHexColor(c);
    ReportedHexColorPaintable(c);
  }

  lemma DefaultIsPaletteColor()
    ensures IsPaletteColor(DefaultCellColor)
  {
  }

  /** A background a cell can report: none, or the reported form of a palette-shaped colour. */
  ghost predicate Shown(background: string) {
    background == "" || exists c :: IsPaletteColor(c) && background == ReadBack(c)
  }

  /** No background a cell can report makes `rgb2hex` throw. */
  lemma ShownPaintable(background: string)
    requires Shown(background)
    ensures Paintable(background)
  {
    if background != "" {
      var c :| IsPaletteColor(c) && background == ReadBack(c);
      ReportedPaletteColorPaintable(c);
    }
  }

  /**
   * The background a cell reports after a handler paints it: the colour
   * `toggleStatesCell` chose, as the browser reports it. When `toggleStatesCell` throws,
   * the assignment does not happen and the cell keeps its background.
   */
  function Repaint(background: string, currentColor: string, defaultCellColor: string): (r: string)
    ensures Paintable(background) ==> r == ReadBack(currentColor) || r == ReadBack(defaultCellColor)
    ensures !Paintable(background) ==> r == background
  {
    match ToggleStatesCell(background, currentColor, defaultCellColor)
    case Ok(color) => ReadBack(color)
    case Err(_) => background
  }

  /** A painted cell can be painted again: its reported background never makes `rgb2hex` throw. */
  lemma RepaintPaintable(background: string, currentColor: string, defaultCellColor: string)
    requires Paintable(background) && IsPaletteColor(currentColor) && IsPaletteColor(defaultCellColor)
    ensures Paintable(Repaint(background, currentColor, defaultCellColor))
  {
    ReportedPaletteColorPaintable(currentColor);
    ReportedPaletteColorPaintable(defaultCellColor);
  }

  /**
   * Painting an unpainted cell twice with the same palette colour: the first paint
   * gives the colour, the second resets the cell only when the colour's blue digits are
   * decimal.
   */
  lemma RepaintTwice(c: string)
    requires IsPaletteColor(c)
    ensures Repaint("", c, DefaultCellColor) == ReadBack(c)
    ensures Paintable(ReadBack(c))
    ensures Repaint(ReadBack(c), c, DefaultCellColor)
            == if IsDigit(c[5]) && IsDigit(c[6]) then ReadBack(DefaultCellColor) else ReadBack(c)
  {
    ReportedPaletteColorPaintable(c);
    ToggleAfterPaint(c);
  }

  /**
   * A cell that was reset takes the selected palette colour at the next paint, for a
   * default colour whose last digit is a letter, as in `#FFFFFF`: `rgb2hex` lower-cases
   * that letter, so the reset cell never normalises to a palette colour.
   */
  lemma RepaintAfterReset(c: string, defaultCellColor: string)
    requires IsPaletteColor(c) && IsPaletteColor(defaultCellColor) && !IsDigit(defaultCellColor[6])
    ensures Paintable(ReadBack(defaultCellColor))
    ensures Repaint(ReadBack(defaultCellColor), c, defaultCellColor) == ReadBack(c)
  {
    ReportedPaletteColorPaintable(defaultCellColor);
    ToggleAfterReset(c, defaultCellColor);
  }

  class Session {
    /** `viewportWidth()` and `viewportHeight()`; the page does not react to resizing. */
    const viewportWidth: nat
    const viewportHeight: nat
    /** `defaultCellColor`: the colour a reset cell takes. */
    const defaultCellColor: string

    /** `elementCell`: the ids of the cells `generateCell` created. */
    var elementCell: seq<nat>
    /** The background each cell of the grid reports, indexed by the cell's id. */
    var cells: array<string>
    var isMousedown: bool
    /** `paletteColor`. */
    var paletteColor: seq<string>
    /** Whether each palette entry carries the `active` class. */
    var active: array<bool>
    var currentColor: string
    var mouseX: int
    var mouseY: int
    var isColorPaletteVisible: bool
    /** Whether the picker carries the `open` class, and its `style.top` and `style.left`. */
    var pickerOpen: bool
    var pickerTop: int
    var pickerLeft: int

    /** What holds once `init` has run, and what every handler keeps. */
    ghost predicate Valid()
      reads this`cells, this`elementCell, this`paletteColor, this`currentColor, this`active
      reads cells, active
    {
      && Finite(viewportWidth, viewportHeight)
      && IsPaletteColor(defaultCellColor)
      && PaletteValid()
      && GridValid()
    }

    /**
     * Twenty palette colours, the selected one among them, and at most one entry
     * marked active, which shows the selected colour.
     */
    ghost predicate PaletteValid()
      reads this`paletteColor, this`currentColor, this`active, active
    {
      && |paletteColor| == MaxPaletteColor
      && (forall k :: 0 <= k < |paletteColor| ==> IsPaletteColor(paletteColor[k]))
      && currentColor in paletteColor
      && active.Length == |paletteColor|
      && (forall j, k :: 0 <= j < k < active.Length && active[j] ==> !active[k])
      && (forall k :: 0 <= k < active.Length && active[k] ==> paletteColor[k] == currentColor)
    }

    /** One id per cell, in order, and every cell showing nothing or a colour of the page. */
    ghost predicate GridValid()
      reads this`cells, this`elementCell, cells
    {
      && elementCell == Ids(cells.Length)
      && (forall i :: 0 <= i < cells.Length ==> Shown(cells[i]))
    }

    /** In a valid session no cell's background makes `rgb2hex` throw, so no handler throws. */
    lemma CellsPaintable()
      requires Valid()
      ensures forall i :: 0 <= i < cells.Length ==> Paintable(cells[i])
    {
      forall i | 0 <= i < cells.Length
        ensures Paintable(cells[i])
      {
        ShownPaintable(cells[i]);
      }
    }

    /**
     * `initState()`: the grid dimensions come from the viewport, and the page holds no
     * cells, no palette and no selected colour yet.
     */
    constructor (viewportWidth: nat, viewportHeight: nat)
      ensures this.viewportWidth == viewportWidth && this.viewportHeight == viewportHeight
      ensures defaultCellColor == DefaultCellColor
      ensures elementCell == [] && cells.Length == 0 && paletteColor == [] && currentColor == ""
      ensures !isMousedown && mouseX == 0 && mouseY == 0
      ensures !isColorPaletteVisible && !pickerOpen
    {
      this.viewportWidth := viewportWidth;
      this.viewportHeight := viewportHeight;
      defaultCellColor := DefaultCellColor;
      elementCell := [];
      paletteColor := [];
      currentColor := "";
      isMousedown := false;
      mouseX, mouseY := 0, 0;
      isColorPaletteVisible := false;
      pickerOpen := false;
      pickerTop, pickerLeft := 0, 0;
      cells := new string[0];
      active := new bool[0];
    }

    /**
     * `init()`, run once on the state `initState()` built: the grid of `totalCell()`
     * cells with no background, twenty palette colours from `draws`, the first of them
     * selected, and no entry active.
     */
    method Init(draws: seq<seq<int>>)
      requires Finite(viewportWidth, viewportHeight) && defaultCellColor == DefaultCellColor
      requires elementCell == [] && paletteColor == []
      requires |draws| == MaxPaletteColor
      requires forall k :: 0 <= k < |draws| ==> IsDigitIndices(draws[k])
      modifies this`elementCell, this`cells, this`paletteColor, this`currentColor, this`active
      ensures Valid() && fresh(cells) && fresh(active)
      ensures cells.Length == TotalCell(viewportWidth, viewportHeight) && elementCell == Ids(cells.Length)
      ensures forall i :: 0 <= i < cells.Length ==> cells[i] == ""
      ensures paletteColor == Colors(draws) && currentColor == paletteColor[0]
      ensures forall k :: 0 <= k < active.Length ==> !active[k]
    {
      GenerateCell();
      InsertCell();
      PaletteColor(draws);
      currentColor := paletteColor[0];
      ColorComponentList();
      DefaultIsPaletteColor();
    }

    /** `generateCell()`: appends one id per cell of the grid, in order. */
    method GenerateCell()
      requires Finite(viewportWidth, viewportHeight)
      modifies this`elementCell
      ensures elementCell == old(elementCell) + Ids(TotalCell(viewportWidth, viewportHeight))
    {
      var index := 0;
      while index < TotalCell(viewportWidth, viewportHeight)
        invariant 0 <= index <= TotalCell(viewportWidth, viewportHeight)
        invariant elementCell == old(elementCell) + Ids(index)
      {
        assert Ids(index + 1) == Ids(index) + [index];
        elementCell := elementCell + [index];
        index := index + 1;
      }
    }

    /** `insertCell()`: one cell on the page per id, none of them painted. */
    method InsertCell()
      requires elementCell == Ids(|elementCell|)
      modifies this`cells
      ensures fresh(cells) && cells.Length == |elementCell|
      ensures forall i :: 0 <= i < cells.Length ==> cells[i] == ""
      ensures GridValid()
    {
      cells := new string[|elementCell|](_ => "");
    }

    /**
     * `colorComponentList()`: one picker entry per palette colour, none of them active.
     * The selected colour must already be one of the palette's.
     */
    method ColorComponentList()
      requires |paletteColor| == MaxPaletteColor && currentColor in paletteColor
      requires forall k :: 0 <= k < |paletteColor| ==> IsPaletteColor(paletteColor[k])
      modifies this`active
      ensures fresh(active) && forall k :: 0 <= k < active.Length ==> !active[k]
      ensures PaletteValid()
    {
      active := new bool[|paletteColor|](_ => false);
    }

    /** `paletteColor()`: appends `maxPaletteColor` generated colours, one per draw. */
    method PaletteColor(draws: seq<seq<int>>)
      requires |draws| == MaxPaletteColor
      requires forall k :: 0 <= k < |draws| ==> IsDigitIndices(draws[k])
      modifies this`paletteColor
      ensures paletteColor == old(paletteColor) + Colors(draws)
    {
      for index := 0 to MaxPaletteColor
        invariant paletteColor == old(paletteColor) + Colors(draws[..index])
      {
        var color := GenerateColor(draws[index]);
        assert Colors(draws[..index + 1]) == Colors(draws[..index]) + [color];
        paletteColor := paletteColor + [color];
      }
      assert draws[..MaxPaletteColor] == draws;
    }

    /** mousedown on cell `target`: painting starts, and the cell is painted. */
    method HandleMousedown(target: nat)
      requires Valid() && target < cells.Length
      modifies this`isMousedown, cells
      ensures Valid() && isMousedown
      ensures cells[..] == old(cells[..])[target := Repaint(old(cells[target]), currentColor, defaultCellColor)]
    {
      isMousedown := true;
      PaintCell(target);
    }

    /**
     * `style.backgroundColor = toggleStatesCell(cell)`: the cell takes the colour
     * `toggleStatesCell` chooses, and reports it as the browser does.
     */
    method PaintCell(target: nat)
      requires Valid() && target < cells.Length
      modifies cells
      ensures Valid()
      ensures cells[..] == old(cells[..])[target := Repaint(old(cells[target]), currentColor, defaultCellColor)]
    {
      ghost var k :| 0 <= k < |paletteColor| && paletteColor[k] == currentColor;
      assert IsPaletteColor(currentColor);
      var color := ToggleStatesCell(cells[target], currentColor, defaultCellColor);
      if color.Ok? {
        cells[target] := ReadBack(color.value);
      }
    }

    /**
     * mouseover on cell `target` at (`clientX`, `clientY`), coming from an element that
     * carries the `color-picker` class exactly when `fromPicker`: records the pointer,
     * moves the picker, hides it unless the pointer came from it, and paints the cell
     * only while the button is held.
     */
    method HandleMouseover(target: nat, clientX: int, clientY: int, fromPicker: bool)
      requires Valid() && target < cells.Length
      modifies this`mouseX, this`mouseY, this`pickerTop, this`pickerLeft
      modifies this`pickerOpen, this`isColorPaletteVisible, cells
      ensures Valid()
      ensures mouseX == clientX && mouseY == clientY
      ensures pickerTop == clientY - Correction && pickerLeft == clientX - Correction
      ensures !fromPicker ==> !pickerOpen && !isColorPaletteVisible
      ensures fromPicker ==> pickerOpen == old(pickerOpen)
                             && isColorPaletteVisible == old(isColorPaletteVisible)
      ensures isMousedown ==>
                cells[..] == old(cells[..])[target := Repaint(old(cells[target]), currentColor, defaultCellColor)]
      ensures !isMousedown ==> cells[..] == old(cells[..])
    {
      mouseX := clientX;
      mouseY := clientY;
      pickerTop := mouseY - Correction;
      pickerLeft := mouseX - Correction;
      if !fromPicker {
        pickerOpen := false;
        isColorPaletteVisible := false;
      }
      if isMousedown {
        PaintCell(target);
      }
    }

    /** mouseup on the document: painting stops; no cell changes. */
    method HandleMouseup()
      requires Valid()
      modifies this`isMousedown
      ensures Valid() && !isMousedown
    {
      isMousedown := false;
    }

    /** `showPalette()`, run by contextmenu on the document: the picker opens. */
    method ShowPalette()
      requires Valid()
      modifies this`pickerOpen, this`isColorPaletteVisible
      ensures Valid() && pickerOpen && isColorPaletteVisible
    {
      pickerOpen := true;
      isColorPaletteVisible := true;
    }

    /**
     * `handlePaletteColor` for a click on entry `currentIndex`: that entry's colour is
     * selected and becomes the only active entry, and the picker closes. The page does
     * not reset `isColorPaletteVisible` here.
     */
    method HandlePaletteColor(currentIndex: nat)
      requires Valid() && currentIndex < |paletteColor|
      modifies this`currentColor, this`pickerOpen, active
      ensures Valid()
      ensures currentColor == paletteColor[currentIndex]
      ensures forall k :: 0 <= k < active.Length ==> (active[k] <==> k == currentIndex)
      ensures !pickerOpen
      ensures isColorPaletteVisible == old(isColorPaletteVisible)
    {
      for k := 0 to active.Length
        invariant forall j :: 0 <= j < k ==> !active[j]
      {
        active[k] := false;
      }
      currentColor := paletteColor[currentIndex];
      if currentColor == paletteColor[currentIndex] {
        active[currentIndex] := true;
      }
      pickerOpen := false;
    }
  }

  /** `app()`: the state `initState()` builds, then `init()` run on it. */
  method App(viewportWidth: nat, viewportHeight: nat, draws: seq<seq<int>>) returns (s: Session)
    requires Finite(viewportWidth, viewportHeight)
    requires |draws| == MaxPaletteColor
    requires forall k :: 0 <= k < |draws| ==> IsDigitIndices(draws[k])
    ensures fresh(s) && s.Valid()
    ensures s.viewportWidth == viewportWidth && s.viewportHeight == viewportHeight
    ensures s.cells.Length == TotalCell(viewportWidth, viewportHeight)
    ensures forall i :: 0 <= i < s.cells.Length ==> s.cells[i] == ""
    ensures s.paletteColor == Colors(draws) && s.currentColor == s.paletteColor[0]
    ensures forall k :: 0 <= k < s.active.Length ==> !s.active[k]
    ensures !s.isMousedown && !s.isColorPaletteVisible && !s.pickerOpen
  {
    s := new Session(viewportWidth, viewportHeight);
    s.Init(draws);
  }

  /**
   * mousedown on `a`, mouseover on `b`, mouseup, mouseover on `c`: `a` and `b` are
   * painted, in that order, and the mouseover after the release paints nothing.
   */
  method Drag(s: Session, a: nat, b: nat, c: nat, x: int, y: int, fromPicker: bool)
    requires s.Valid() && a < s.cells.Length && b < s.cells.Length && c < s.cells.Length
    modifies s`isMousedown, s`mouseX, s`mouseY, s`pickerTop, s`pickerLeft
    modifies s`pickerOpen, s`isColorPaletteVisible, s.cells
    ensures s.Valid() && !s.isMousedown
    ensures var afterA := old(s.cells[..])[a := Repaint(old(s.cells[a]), s.currentColor, s.defaultCellColor)];
            s.cells[..] == afterA[b := Repaint(afterA[b], s.currentColor, s.defaultCellColor)]
    ensures c != a && c != b ==> s.cells[c] == old(s.cells[c])
  {
    s.HandleMousedown(a);
    s.HandleMouseover(b, x, y, fromPicker);
    s.HandleMouseup();
    s.HandleMouseover(c, x, y, fromPicker);
  }
}
