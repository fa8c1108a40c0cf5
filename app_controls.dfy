/** The grid controls of src/App.jsx. Unlike GridOverlayTool.js, the change handlers
    store whatever parseInt returns, NaN and out-of-range numbers included, and only the
    redraw is gated: it happens when an image is loaded and the new value lies in
    1..100. The colour control and the preset buttons redraw whenever an image is
    loaded. */
module AppControls {
  import opened JsNumbers
  import opened GridLayout

  /** The largest row or column count that triggers a redraw. */
  const RedrawLimit: int := 100

  /** The arguments of a `drawImageWithGrid` call that the controls decide: the row and
      column numbers (`None` for NaN) and the colour text. */
  datatype Draw = Draw(rows: Option<int>, cols: Option<int>, colour: string)

  /** The controls' state; `hasImage` says whether `selectedImage` is set. */
  datatype Controls = Controls(rows: Option<int>, cols: Option<int>, colour: string, hasImage: bool)

  /** The state the app starts in: 3 × 3, red, no image. */
  const Start: Controls := Controls(Some(3), Some(3), "#ff0000", false)

  /** `newValue >= 1 && newValue <= 100`, false for NaN. */
  predicate Redrawable(v: Option<int>) {
    v.Some? && 1 <= v.value <= RedrawLimit
  }

  /** The user actions these handlers react to. */
  datatype Action =
    | RowsTyped(text: string)
    | ColsTyped(text: string)
    | ColourPicked(colour: string)
    | PresetPressed(presetRows: int, presetCols: int)
    | ImageLoaded

  datatype Reaction = Reaction(state: Controls, draw: Option<Draw>)

  /** One action. The typed text is read by `parseInt(text)` with no fallback. */
  function React(c: Controls, a: Action): Reaction {
    match a
    case RowsTyped(text) =>
      var v := ParseInt(text, 0);
      var c' := c.(rows := v);
      Reaction(c', if c.hasImage && Redrawable(v) then Some(Draw(v, c.cols, c.colour)) else None)
    case ColsTyped(text) =>
      var v := ParseInt(text, 0);
      var c' := c.(cols := v);
      Reaction(c', if c.hasImage && Redrawable(v) then Some(Draw(c.rows, v, c.colour)) else None)
    case ColourPicked(colour) =>
      Reaction(c.(colour := colour), if c.hasImage then Some(Draw(c.rows, c.cols, colour)) else None)
    case PresetPressed(r, k) =>
      var c' := c.(rows := Some(r), cols := Some(k));
      Reaction(c', if c.hasImage then Some(Draw(Some(r), Some(k), c.colour)) else None)
    case ImageLoaded =>
      Reaction(c.(hasImage := true), Some(Draw(c.rows, c.cols, c.colour)))
  }

  /** The typed value is stored whatever it is, and only the field typed into changes. */
  lemma TypedValueStored(c: Controls, text: string)
    ensures React(c, RowsTyped(text)).state == c.(rows := ParseInt(text, 0))
    ensures React(c, ColsTyped(text)).state == c.(cols := ParseInt(text, 0))
  {
  }

  /** Typing redraws exactly when an image is loaded and the typed value is in 1..100;
      the redraw carries the typed value and the other stored value unchanged. */
  lemma TypedRedraw(c: Controls, text: string)
    ensures React(c, RowsTyped(text)).draw.Some? <==> c.hasImage && Redrawable(ParseInt(text, 0))
    ensures React(c, ColsTyped(text)).draw.Some? <==> c.hasImage && Redrawable(ParseInt(text, 0))
    ensures React(c, RowsTyped(text)).draw.Some? ==>
      React(c, RowsTyped(text)).draw.value == Draw(ParseInt(text, 0), c.cols, c.colour)
    ensures React(c, ColsTyped(text)).draw.Some? ==>
      React(c, ColsTyped(text)).draw.value == Draw(c.rows, ParseInt(text, 0), c.colour)
  {
  }

  /** Text that is no number is stored as NaN and draws nothing. */
  lemma NonNumericStoredAsNaN(c: Controls, text: string)
    requires text == [] || (DigitValue(text[0]) >= 10 && !IsTrimmable(text[0]) && text[0] != '-' && text[0] != '+')
    ensures React(c, RowsTyped(text)) == Reaction(c.(rows := None), None)
  {
    ParseRejectsNonNumeric(text);
  }

  /** A value above 100 is stored, though nothing is redrawn. */
  lemma LargeValueStored(c: Controls, n: nat)
    requires n > RedrawLimit
    ensures React(c, ColsTyped(Decimal(n))) == Reaction(c.(cols := Some(n)), None)
  {
    ParseDecimalPrefix(n, "");
    assert Decimal(n) + "" == Decimal(n);
  }

  /** The gate checks only the value just typed: a NaN stored for the columns is drawn
      along with valid rows, and that grid has no vertical line at all. */
  lemma StoredNaNIsDrawn(width: nat, height: nat)
    ensures var c := React(React(Start, ImageLoaded).state, ColsTyped("")).state;
      var r := React(c, RowsTyped("5"));
      r.draw == Some(Draw(Some(5), None, "#ff0000")) &&
      |GridLines(width, height, Some(5), None)| == 4
  {
    ParseRejectsNonNumeric("");
    ParseDecimalPrefix(5, "");
    assert Decimal(5) + "" == "5";
  }

  /** The two preset buttons set both values: 3 × 3, and 48 × 33 (rows × columns). With
      an image loaded, the 48 × 33 redraw draws 32 vertical and 47 horizontal lines on a
      canvas of any size. */
  lemma PresetsStored(c: Controls, width: nat, height: nat)
    ensures React(c, PresetPressed(3, 3)).state == c.(rows := Some(3), cols := Some(3))
    ensures React(c, PresetPressed(48, 33)).state == c.(rows := Some(48), cols := Some(33))
    ensures c.hasImage ==> var d := React(c, PresetPressed(48, 33)).draw.value;
      LineCount(d.cols) == 32 && LineCount(d.rows) == 47 &&
      |GridLines(width, height, d.rows, d.cols)| == 32 + 47 &&
      forall i :: 0 <= i < 32 ==> GridLines(width, height, d.rows, d.cols)[i].x0 == LinePositions(width, d.cols)[i]
  {
    if c.hasImage {
      var d := React(c, PresetPressed(48, 33)).draw.value;
      forall i | 0 <= i < 32
        ensures GridLines(width, height, d.rows, d.cols)[i].x0 == LinePositions(width, d.cols)[i]
      {
        GridLineShape(width, height, d.rows, d.cols, i);
      }
    }
  }

  /** A new colour is stored and, with an image loaded, drawn with the stored grid. */
  lemma ColourRedraw(c: Controls, colour: string)
    ensures React(c, ColourPicked(colour)).state == c.(colour := colour)
    ensures React(c, ColourPicked(colour)).draw.Some? <==> c.hasImage
    ensures c.hasImage ==> React(c, ColourPicked(colour)).draw.value == Draw(c.rows, c.cols, colour)
  {
  }

  /** The app component's grid controls. */
  class App {
    var rows: Option<int>
    var cols: Option<int>
    var colour: string
    var hasImage: bool

    function Snapshot(): Controls
      reads this
    {
      Controls(rows, cols, colour, hasImage)
    }

    constructor()
      ensures Snapshot() == Start
    {
      rows, cols, colour, hasImage := Some(3), Some(3), "#ff0000", false;
    }

    /** `handleRowsChange`; the result is the redraw, if any. */
    method HandleRowsChange(text: string) returns (draw: Option<Draw>)
      modifies this
      ensures Reaction(Snapshot(), draw) == React(old(Snapshot()), RowsTyped(text))
    {
      var newRows := ParseInt(text, 0);
      rows := newRows;
      draw := None;
      if hasImage && newRows.Some? && newRows.value >= 1 && newRows.value <= RedrawLimit {
        draw := Some(Draw(newRows, cols, colour));
      }
    }

    /** `handleColsChange`. */
    method HandleColsChange(text: string) returns (draw: Option<Draw>)
      modifies this
      ensures Reaction(Snapshot(), draw) == React(old(Snapshot()), ColsTyped(text))
    {
      var newCols := ParseInt(text, 0);
      cols := newCols;
      draw := None;
      if hasImage && newCols.Some? && newCols.value >= 1 && newCols.value <= RedrawLimit {
        draw := Some(Draw(rows, newCols, colour));
      }
    }

    /** `handleColorChange`. */
    method HandleColorChange(newColour: string) returns (draw: Option<Draw>)
      modifies this
      ensures Reaction(Snapshot(), draw) == React(old(Snapshot()), ColourPicked(newColour))
    {
      colour := newColour;
      draw := None;
      if hasImage {
        draw := Some(Draw(rows, cols, newColour));
      }
    }

    /** `presetGrid(presetRows, presetCols)`. */
    method PresetGrid(presetRows: int, presetCols: int) returns (draw: Option<Draw>)
      modifies this
      ensures Reaction(Snapshot(), draw) == React(old(Snapshot()), PresetPressed(presetRows, presetCols))
    {
      rows := Some(presetRows);
      cols := Some(presetCols);
      draw := None;
      if hasImage {
        draw := Some(Draw(Some(presetRows), Some(presetCols), colour));
      }
    }

    /** `img.onload` in `handleImageUpload`: the image is selected and drawn. */
    method ImageLoad() returns (draw: Option<Draw>)
      modifies this
      ensures Reaction(Snapshot(), draw) == React(old(Snapshot()), ImageLoaded)
    {
      hasImage := true;
      draw := Some(Draw(rows, cols, colour));
    }
  }
}
