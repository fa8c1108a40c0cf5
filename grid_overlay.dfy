/** The row and column controls of GridOverlayTool.js. `validateGridSize` checks a
    proposed grid in two stages and records an error message; the change handlers and
    the preset buttons store a new grid only when it passes, and redraw the image when
    one is loaded. The component's state is the class `GridOverlayTool`; `Step` is the
    same behaviour as a function on state values, so that sequences of events can be
    reasoned about. */
module GridOverlay {
  import opened JsNumbers
  import opened GridLayout

  /** The largest number of rows or columns the tool accepts. */
  const MaxDivisions: int := 20

  /** Shown when a value is below 1. */
  const TooFewMessage: string := "行数和列数必须大于0"

  /** Shown when both values are at least 1 and one of them exceeds 20. */
  const TooManyMessage: string := "为了保持清晰度，行数和列数不能超过20"

  predicate InRange(n: int) {
    1 <= n <= MaxDivisions
  }

  /** The outcome of `validateGridSize`. */
  datatype Verdict = Accepted | TooFew | TooMany

  /** `validateGridSize(rows, cols)`: the lower bound is checked first, so a grid with a
      value below 1 is refused as too few even when the other value exceeds 20. */
  function Check(rows: int, cols: int): (v: Verdict)
    ensures v == TooFew <==> rows < 1 || cols < 1
    ensures v == TooMany <==> 1 <= rows && 1 <= cols && (rows > MaxDivisions || cols > MaxDivisions)
    ensures v == Accepted <==> InRange(rows) && InRange(cols)
  {
    if rows < 1 || cols < 1 then TooFew
    else if rows > MaxDivisions || cols > MaxDivisions then TooMany
    else Accepted
  }

  /** The error text `validateGridSize` leaves behind: empty exactly when accepted. */
  function Message(v: Verdict): (m: string)
    ensures m == "" <==> v == Accepted
    ensures v == TooFew ==> m == TooFewMessage
    ensures v == TooMany ==> m == TooManyMessage
  {
    match v
    case Accepted => ""
    case TooFew => TooFewMessage
    case TooMany => TooManyMessage
  }

  /** The rows and columns a call of `drawImageWithGrid` draws with. */
  datatype Grid = Grid(rows: int, cols: int)

  /** The component's state: the stored grid, the error text and whether an image has
      been loaded. */
  datatype State = State(rows: int, cols: int, error: string, hasImage: bool)

  /** The user actions the component reacts to: typing into the rows or columns field,
      pressing a preset button, choosing a file (`isImage` when its type is an image type). */
  datatype Event =
    | RowsInput(text: string)
    | ColsInput(text: string)
    | Preset(presetRows: int, presetCols: int)
    | ImageChosen(isImage: bool)

  /** The new state and the redraw, if any, that an event causes. */
  datatype Outcome = Outcome(state: State, redraw: Option<Grid>)

  /** The state the component starts in: a 3 × 3 grid, no error, no image. */
  const Initial: State := State(3, 3, "", false)

  /** Validate `(rows, cols)`, record the message, and on success store the grid and
      redraw if an image is loaded. */
  function Propose(s: State, rows: int, cols: int): Outcome {
    var v := Check(rows, cols);
    if v == Accepted then
      Outcome(s.(rows := rows, cols := cols, error := ""), if s.hasImage then Some(Grid(rows, cols)) else None)
    else
      Outcome(s.(error := Message(v)), None)
  }

  /** One event: the typed text is read as `parseInt(text) || 0`; a chosen image is drawn
      with the stored grid. */
  function Step(s: State, e: Event): Outcome {
    match e
    case RowsInput(text) => Propose(s, ParseIntOrZero(text), s.cols)
    case ColsInput(text) => Propose(s, s.rows, ParseIntOrZero(text))
    case Preset(r, c) => Propose(s, r, c)
    case ImageChosen(isImage) =>
      if isImage then Outcome(s.(hasImage := true), Some(Grid(s.rows, s.cols))) else Outcome(s, None)
  }

  /** The state after a sequence of events. */
  function Run(s: State, events: seq<Event>): State
    decreases |events|
  {
    if events == [] then s else Run(Step(s, events[0]).state, events[1..])
  }

  predicate ValidState(s: State) {
    InRange(s.rows) && InRange(s.cols)
  }

  /** An accepted grid replaces the stored one and clears the error; a refused one
      leaves the grid as it was and only sets the error. Either way nothing else changes. */
  lemma ProposeEffect(s: State, rows: int, cols: int)
    ensures Check(rows, cols) == Accepted ==>
      Propose(s, rows, cols).state == State(rows, cols, "", s.hasImage)
    ensures Check(rows, cols) != Accepted ==>
      Propose(s, rows, cols).state == State(s.rows, s.cols, Message(Check(rows, cols)), s.hasImage) &&
      Propose(s, rows, cols).redraw == None
  {
  }

  /** Typing into the rows field touches only the rows and the error; typing into the
      columns field only the columns and the error. */
  lemma InputTouchesOneField(s: State, text: string)
    ensures Step(s, RowsInput(text)).state.cols == s.cols
    ensures Step(s, ColsInput(text)).state.rows == s.rows
    ensures Step(s, RowsInput(text)).state.hasImage == s.hasImage
    ensures Step(s, ColsInput(text)).state.hasImage == s.hasImage
  {
  }

  /** Every redraw, from any state, uses a grid of 1..20 rows and 1..20 columns. */
  lemma RedrawInRange(s: State, e: Event)
    requires ValidState(s) || !e.ImageChosen?
    ensures Step(s, e).redraw.Some? ==>
      InRange(Step(s, e).redraw.value.rows) && InRange(Step(s, e).redraw.value.cols)
  {
  }

  /** A redraw happens exactly when an image is loaded and the grid is accepted, or when
      an image is chosen. */
  lemma RedrawWhen(s: State, e: Event)
    requires !e.ImageChosen?
    ensures Step(s, e).redraw.Some? <==> s.hasImage && Step(s, e).state.error == ""
  {
  }

  /** A stored grid of 1..20 rows and columns stays so after any event. */
  lemma StepKeepsRange(s: State, e: Event)
    requires ValidState(s)
    ensures ValidState(Step(s, e).state)
  {
  }

  /** ... and after any sequence of events. */
  lemma {:induction false} RunKeepsRange(s: State, events: seq<Event>)
    requires ValidState(s)
    ensures ValidState(Run(s, events))
    decreases |events|
  {
    if events != [] {
      StepKeepsRange(s, events[0]);
      RunKeepsRange(Step(s, events[0]).state, events[1..]);
    }
  }

  /** The tool starts with a valid grid, so its grid is valid in every reachable state. */
  lemma ReachableInRange(events: seq<Event>)
    ensures ValidState(Run(Initial, events))
  {
    RunKeepsRange(Initial, events);
  }

  /** Text that is not a number reads as 0 and is refused with the "must be above 0"
      message; the grid stays as it was. */
  lemma NonNumericRefused(s: State, text: string)
    requires text == [] || (DigitValue(text[0]) >= 10 && !IsTrimmable(text[0]) && text[0] != '-' && text[0] != '+')
    ensures Step(s, RowsInput(text)) == Outcome(s.(error := TooFewMessage), None)
    ensures Step(s, ColsInput(text)) == Outcome(s.(error := TooFewMessage), None)
  {
    ParseRejectsNonNumeric(text);
  }

  /** Typing a numeral of 1..20 into the rows field, with a valid column count, stores it
      and clears the error. */
  lemma NumeralAccepted(s: State, n: nat)
    requires InRange(n) && InRange(s.cols)
    ensures Step(s, RowsInput(Decimal(n))).state == s.(rows := n, error := "")
  {
    ParseDecimalPrefix(n, "");
    assert Decimal(n) + "" == Decimal(n);
  }

  /** Typing a numeral above 20 is refused with the "cannot exceed 20" message. */
  lemma NumeralTooLarge(s: State, n: nat)
    requires n > MaxDivisions && s.rows >= 1
    ensures Step(s, ColsInput(Decimal(n))) == Outcome(s.(error := TooManyMessage), None)
  {
    ParseDecimalPrefix(n, "");
    assert Decimal(n) + "" == Decimal(n);
  }

  /** The two preset buttons, 3 × 3 and 4 × 6, are always accepted and set both values. */
  lemma PresetsAccepted(s: State)
    ensures Step(s, Preset(3, 3)).state == State(3, 3, "", s.hasImage)
    ensures Step(s, Preset(4, 6)).state == State(4, 6, "", s.hasImage)
  {
  }

  /** A redraw draws `cols - 1` vertical and `rows - 1` horizontal lines: at most 38. */
  lemma RedrawLines(s: State, e: Event, width: nat, height: nat)
    requires ValidState(s) || !e.ImageChosen?
    requires Step(s, e).redraw.Some?
    ensures var g := Step(s, e).redraw.value;
      |GridLines(width, height, Some(g.rows), Some(g.cols))| == g.rows - 1 + g.cols - 1 <= 38
  {
    RedrawInRange(s, e);
  }

  /** The component: the stored grid, the error text and whether an image is loaded. */
  class GridOverlayTool {
    var rows: int
    var cols: int
    var error: string
    var hasImage: bool

    function Snapshot(): State
      reads this
    {
      State(rows, cols, error, hasImage)
    }

    constructor()
      ensures Snapshot() == Initial
    {
      rows, cols, error, hasImage := 3, 3, "", false;
    }

    /** `validateGridSize`: records the message and says whether the grid is accepted. */
    method ValidateGridSize(newRows: int, newCols: int) returns (ok: bool)
      modifies this
      ensures ok <==> InRange(newRows) && InRange(newCols)
      ensures Snapshot() == old(Snapshot()).(error := Message(Check(newRows, newCols)))
    {
      if newRows < 1 || newCols < 1 {
        error := TooFewMessage;
        return false;
      }
      if newRows > MaxDivisions || newCols > MaxDivisions {
        error := TooManyMessage;
        return false;
      }
      error := "";
      return true;
    }

    /** `handleRowsChange`; the result is the grid redrawn, if any. */
    method HandleRowsChange(text: string) returns (redraw: Option<Grid>)
      modifies this
      ensures Outcome(Snapshot(), redraw) == Step(old(Snapshot()), RowsInput(text))
    {
      var newRows := ParseIntOrZero(text);
      redraw := None;
      var ok := ValidateGridSize(newRows, cols);
      if ok {
        rows := newRows;
        if hasImage {
          redraw := Some(Grid(newRows, cols));
        }
      }
    }

    /** `handleColsChange`. */
    method HandleColsChange(text: string) returns (redraw: Option<Grid>)
      modifies this
      ensures Outcome(Snapshot(), redraw) == Step(old(Snapshot()), ColsInput(text))
    {
      var newCols := ParseIntOrZero(text);
      redraw := None;
      var ok := ValidateGridSize(rows, newCols);
      if ok {
        cols := newCols;
        if hasImage {
          redraw := Some(Grid(rows, newCols));
        }
      }
    }

    /** `presetGrid(presetRows, presetCols)`. */
    method PresetGrid(presetRows: int, presetCols: int) returns (redraw: Option<Grid>)
      modifies this
      ensures Outcome(Snapshot(), redraw) == Step(old(Snapshot()), Preset(presetRows, presetCols))
    {
      redraw := None;
      var ok := ValidateGridSize(presetRows, presetCols);
      if ok {
        rows := presetRows;
        cols := presetCols;
        if hasImage {
          redraw := Some(Grid(presetRows, presetCols));
        }
      }
    }

    /** `handleImageUpload` once the image has loaded: a file of an image type becomes
        the selected image and is drawn with the stored grid. */
    method ImageLoaded(isImage: bool) returns (redraw: Option<Grid>)
      modifies this
      ensures Outcome(Snapshot(), redraw) == Step(old(Snapshot()), ImageChosen(isImage))
    {
      redraw := None;
      if isImage {
        hasImage := true;
        redraw := Some(Grid(rows, cols));
      }
    }
  }
}
