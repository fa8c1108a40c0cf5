/** The grid drawn over the image by `drawImageWithGrid` (src/App.jsx and
    GridOverlayTool.js share the two loops) and the stroke colour of src/App.jsx.
    Coordinates are canvas pixels as exact reals; the row and column numbers are
    JavaScript numbers that may be NaN (`None`) or out of range, in which case the
    loop conditions decide what is drawn. */
module GridLayout {
  import opened JsNumbers

  /** One `moveTo`/`lineTo` stroke. */
  datatype Segment = Segment(x0: real, y0: real, x1: real, y1: real)

  /** The number of lines `for (let i = 1; i < divisions; i++)` draws: `divisions - 1`,
      none for NaN or for fewer than two divisions. */
  function LineCount(divisions: Option<int>): (n: nat)
    ensures divisions.Some? && divisions.value >= 1 ==> n == divisions.value - 1
    ensures divisions.None? || divisions.value <= 1 ==> n == 0
  {
    match divisions
    case None => 0
    case Some(d) => if d > 1 then d - 1 else 0
  }

  /** The positions `(extent / divisions) * i` of the dividing lines, `i = 1 .. divisions - 1`. */
  function LinePositions(extent: nat, divisions: Option<int>): (r: seq<real>)
    ensures |r| == LineCount(divisions)
  {
    var n := LineCount(divisions);
    seq(n, k requires 0 <= k < n => (extent as real / (n + 1) as real) * (k + 1) as real)
  }

  /** The grid's strokes in drawing order: the vertical lines left to right, each from
      the top edge to the bottom edge, then the horizontal lines top to bottom. */
  function GridLines(width: nat, height: nat, rows: Option<int>, cols: Option<int>): (s: seq<Segment>)
    ensures |s| == LineCount(cols) + LineCount(rows)
  {
    var xs, ys := LinePositions(width, cols), LinePositions(height, rows);
    seq(|xs|, i requires 0 <= i < |xs| => Segment(xs[i], 0.0, xs[i], height as real)) +
    seq(|ys|, i requires 0 <= i < |ys| => Segment(0.0, ys[i], width as real, ys[i]))
  }

  /** Line `i` (counting from 1) sits at `i / divisions` of the extent. */
  lemma LinePosition(extent: nat, d: int, i: int)
    requires d >= 1 && 1 <= i < d
    ensures LinePositions(extent, Some(d))[i - 1] == extent as real * i as real / d as real
  {
  }

  /** The lines cut the extent into `divisions` cells of equal size: the first line is one
      cell from 0, consecutive lines are one cell apart and the last is one cell from the
      far edge. */
  lemma LinesEvenlySpaced(extent: nat, d: int)
    requires d >= 2
    ensures var r, cell := LinePositions(extent, Some(d)), extent as real / d as real;
      r[0] == cell && r[|r| - 1] + cell == extent as real &&
      forall i :: 0 <= i < |r| - 1 ==> r[i + 1] - r[i] == cell
  {
    var r, cell := LinePositions(extent, Some(d)), extent as real / d as real;
    assert r[|r| - 1] == cell * (d - 1) as real;
    assert cell * d as real == extent as real;
  }

  /** On a canvas of positive size every line lies strictly inside it and the lines are
      strictly increasing, so no two coincide. */
  lemma LinesInside(extent: nat, divisions: Option<int>)
    requires extent > 0
    ensures var r := LinePositions(extent, divisions);
      (forall i :: 0 <= i < |r| ==> 0.0 < r[i] < extent as real) &&
      (forall i, j :: 0 <= i < j < |r| ==> r[i] < r[j])
  {
    var r := LinePositions(extent, divisions);
    forall i | 0 <= i < |r|
      ensures 0.0 < r[i] < extent as real
    {
      LineInside(extent, divisions, i);
    }
    forall i, j | 0 <= i < j < |r|
      ensures r[i] < r[j]
    {
      LinesOrdered(extent, divisions, i, j);
    }
  }

  /** Line `k + 1` is `k + 1` cells from the edge. */
  lemma PositionIsCells(extent: nat, divisions: Option<int>, k: int)
    requires 0 <= k < LineCount(divisions)
    ensures LinePositions(extent, divisions)[k] == (extent as real / (LineCount(divisions) + 1) as real) * (k + 1) as real
  {
  }

  /** Line `k + 1` lies strictly inside a positive extent. */
  lemma LineInside(extent: nat, divisions: Option<int>, k: int)
    requires extent > 0 && 0 <= k < LineCount(divisions)
    ensures 0.0 < LinePositions(extent, divisions)[k] < extent as real
  {
    var m := LineCount(divisions) + 1;
    var cell := extent as real / m as real;
    PositionIsCells(extent, divisions, k);
    CellsFill(extent as real, m);
    ProductBelow(cell, k + 1, m);
  }

  /** An earlier line lies before a later one. */
  lemma LinesOrdered(extent: nat, divisions: Option<int>, i: int, j: int)
    requires extent > 0 && 0 <= i < j < LineCount(divisions)
    ensures LinePositions(extent, divisions)[i] < LinePositions(extent, divisions)[j]
  {
    var m := LineCount(divisions) + 1;
    var cell := extent as real / m as real;
    PositionIsCells(extent, divisions, i);
    PositionIsCells(extent, divisions, j);
    CellsFill(extent as real, m);
    ProductBelow(cell, i + 1, j + 1);
  }

  /** `m` cells of `extent / m` fill the extent, and a cell of a positive extent is positive. */
  lemma CellsFill(extent: real, m: int)
    requires m >= 1
    ensures (extent / m as real) * m as real == extent
    ensures extent > 0.0 ==> extent / m as real > 0.0
  {
  }

  lemma ProductBelow(c: real, a: int, b: int)
    requires c > 0.0 && 0 < a < b
    ensures 0.0 < c * a as real < c * b as real
  {
  }

  /** The grid is symmetric: line `i` from one edge is line `i` from the other. */
  lemma LinesSymmetric(extent: nat, divisions: Option<int>)
    ensures var r := LinePositions(extent, divisions);
      forall i :: 0 <= i < |r| ==> r[i] + r[|r| - 1 - i] == extent as real
  {
    var r := LinePositions(extent, divisions);
    var n := |r|;
    var cell := extent as real / (n + 1) as real;
    forall i | 0 <= i < n
      ensures r[i] + r[n - 1 - i] == extent as real
    {
      assert r[i] + r[n - 1 - i] == cell * (i + 1) as real + cell * (n - i) as real;
      assert cell * (n + 1) as real == extent as real;
    }
  }

  /** NaN, zero, negative and single divisions draw no line in that direction. */
  lemma NoLinesWithoutDivisions(width: nat, height: nat, rows: Option<int>, cols: Option<int>)
    requires rows.None? || rows.value <= 1
    ensures |GridLines(width, height, rows, cols)| == LineCount(cols)
    ensures forall i :: 0 <= i < |GridLines(width, height, rows, cols)| ==> GridLines(width, height, rows, cols)[i].x0 == GridLines(width, height, rows, cols)[i].x1
  {
  }

  /** Stroke `i` of the grid: the first `cols - 1` strokes are full-height vertical lines at
      the column boundaries, the rest full-width horizontal lines at the row boundaries. */
  lemma GridLineShape(width: nat, height: nat, rows: Option<int>, cols: Option<int>, i: int)
    requires 0 <= i < |GridLines(width, height, rows, cols)|
    ensures var s, nc := GridLines(width, height, rows, cols)[i], LineCount(cols);
      if i < nc then s.x0 == s.x1 == LinePositions(width, cols)[i] && s.y0 == 0.0 && s.y1 == height as real
      else s.y0 == s.y1 == LinePositions(height, rows)[i - nc] && s.x0 == 0.0 && s.x1 == width as real
  {
  }

  /** Turn `i` of a drawing loop computes the position of line `i`. */
  lemma LoopPosition(extent: nat, divisions: Option<int>, i: int)
    requires divisions.Some? && 1 <= i < divisions.value
    ensures LineCount(divisions) + 1 == divisions.value
    ensures (extent as real / divisions.value as real) * i as real == LinePositions(extent, divisions)[i - 1]
  {
  }

  /** The two drawing loops: `for (let i = 1; i < divisions; i++)` appends one stroke
      at `(extent / divisions) * i` per turn; a NaN bound ends the loop at once. */
  method DrawGrid(width: nat, height: nat, rows: Option<int>, cols: Option<int>) returns (strokes: seq<Segment>)
    ensures strokes == GridLines(width, height, rows, cols)
  {
    strokes := [];
    ghost var xs := LinePositions(width, cols);
    var i := 1;
    while cols.Some? && i < cols.value
      invariant 1 <= i <= LineCount(cols) + 1
      invariant strokes == seq(i - 1, k requires 0 <= k < i - 1 => Segment(xs[k], 0.0, xs[k], height as real))
    {
      var x := (width as real / cols.value as real) * i as real;
      LoopPosition(width, cols, i);
      strokes := strokes + [Segment(x, 0.0, x, height as real)];
      i := i + 1;
    }
    ghost var vertical := strokes;
    ghost var ys := LinePositions(height, rows);
    ghost var horizontal: seq<Segment> := [];
    i := 1;
    while rows.Some? && i < rows.value
      invariant 1 <= i <= LineCount(rows) + 1
      invariant horizontal == seq(i - 1, k requires 0 <= k < i - 1 => Segment(0.0, ys[k], width as real, ys[k]))
      invariant strokes == vertical + horizontal
    {
      var y := (height as real / rows.value as real) * i as real;
      LoopPosition(height, rows, i);
      strokes := strokes + [Segment(0.0, y, width as real, y)];
      horizontal := horizontal + [Segment(0.0, y, width as real, y)];
      i := i + 1;
    }
  }
}
