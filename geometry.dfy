/** Grid geometry of the cropping tool: the fixed 6x6 grid laid over an image of
    w x h pixels, the row-major cell rectangles in original-image coordinates,
    and the first-match lookup of the cell that contains a clicked point. */
module Geometry {
  import opened Wrappers

  /** Number of grid rows and columns (fixed for the whole run). */
  const GridRows: nat := 6
  const GridCols: nat := 6
  const CellCount: nat := GridRows * GridCols

  /** A cell rectangle (x1, y1, x2, y2) in original-image pixels. */
  datatype Rect = Rect(x1: int, y1: int, x2: int, y2: int)

  /** Cell width and height: truncating division of the image size by the grid. */
  function CellWidth(w: nat): nat { w / GridCols }
  function CellHeight(h: nat): nat { h / GridRows }

  /** The rectangle of the cell in row `i`, column `j`, as the grid drawing builds it. */
  function CellAt(i: nat, j: nat, w: nat, h: nat): Rect
  {
    var x1, y1 := j * CellWidth(w), i * CellHeight(h);
    Rect(x1, y1, x1 + CellWidth(w), y1 + CellHeight(h))
  }

  /** The rectangle of cell `idx` as the export step rebuilds it from the index
      alone: row `idx / cols`, column `idx % cols`. Every cell is one cell
      width wide and one cell height high, from a non-negative corner. */
  function CellRect(idx: nat, w: nat, h: nat): (r: Rect)
    ensures 0 <= r.x1 && 0 <= r.y1
    ensures r.x2 - r.x1 == CellWidth(w) && r.y2 - r.y1 == CellHeight(h)
  {
    CellAt(idx / GridCols, idx % GridCols, w, h)
  }

  /** The whole grid, in row-major order. */
  function GridCells(w: nat, h: nat): (cells: seq<Rect>)
    ensures |cells| == CellCount
  {
    seq(CellCount, k requires 0 <= k => CellRect(k, w, h))
  }

  /** Containment with inclusive bounds on all four edges. */
  predicate Contains(r: Rect, x: int, y: int)
  {
    r.x1 <= x <= r.x2 && r.y1 <= y <= r.y2
  }

  /** The first index, scanning from `from`, whose rectangle contains the point. */
  function LocateFrom(cells: seq<Rect>, x: int, y: int, from: nat): (r: Option<nat>)
    requires from <= |cells|
    ensures r.Some? ==> from <= r.value < |cells| && Contains(cells[r.value], x, y)
    ensures r.Some? ==> forall k :: from <= k < r.value ==> !Contains(cells[k], x, y)
    ensures r.None? ==> forall k :: from <= k < |cells| ==> !Contains(cells[k], x, y)
    decreases |cells| - from
  {
    if from == |cells| then None
    else if Contains(cells[from], x, y) then Some(from)
    else LocateFrom(cells, x, y, from + 1)
  }

  /** The first cell, in row-major order, that contains the point, if any. */
  function Locate(cells: seq<Rect>, x: int, y: int): Option<nat>
  {
    LocateFrom(cells, x, y, 0)
  }

  /** The scan of the click handler: walk the cells in order and stop at the
      first one that contains the point. */
  method FindCell(cells: seq<Rect>, x: int, y: int) returns (found: Option<nat>)
    ensures found == Locate(cells, x, y)
  {
    found := None;
    var idx := 0;
    while idx < |cells|
      invariant 0 <= idx <= |cells|
      invariant LocateFrom(cells, x, y, idx) == Locate(cells, x, y)
    {
      var c := cells[idx];
      if c.x1 <= x <= c.x2 && c.y1 <= y <= c.y2 {
        found := Some(idx);
        return;
      }
      idx := idx + 1;
    }
  }

  // ---------------------------------------------------------------------
  // Row-major indexing

  /** Index `i * cols + j` decodes back to row `i`, column `j`. */
  lemma RowMajorDivMod(i: nat, j: nat)
    requires j < GridCols
    ensures (i * GridCols + j) / GridCols == i
    ensures (i * GridCols + j) % GridCols == j
  {
  }

  /** Entry `i * cols + j` of the grid is the rectangle of row `i`, column `j`. */
  lemma GridCellsRowMajor(i: nat, j: nat, w: nat, h: nat)
    requires i < GridRows && j < GridCols
    ensures i * GridCols + j < CellCount
    ensures GridCells(w, h)[i * GridCols + j] == CellAt(i, j, w, h)
    ensures CellAt(i, j, w, h) == Rect(j * (w / GridCols), i * (h / GridRows),
                                       j * (w / GridCols) + w / GridCols,
                                       i * (h / GridRows) + h / GridRows)
  {
  }

  // ---------------------------------------------------------------------
  // Cells lie inside the image; the truncated edge strip is uncovered

  lemma MulMono(a: nat, b: nat, c: nat)
    requires a <= b
    ensures a * c <= b * c
  {
  }

  /** Every cell lies inside the image: `0 <= x1 <= x2 <= cols*cw <= w`, and
      likewise vertically. */
  lemma CellInsideImage(idx: nat, w: nat, h: nat)
    requires idx < CellCount
    ensures var r := CellRect(idx, w, h);
      0 <= r.x1 <= r.x2 <= GridCols * CellWidth(w) <= w &&
      0 <= r.y1 <= r.y2 <= GridRows * CellHeight(h) <= h
    ensures var r := CellRect(idx, w, h);
      (w >= GridCols ==> r.x1 < r.x2) && (h >= GridRows ==> r.y1 < r.y2)
  {
    var i, j := idx / GridCols, idx % GridCols;
    MulMono(j + 1, GridCols, CellWidth(w));
    MulMono(i + 1, GridRows, CellHeight(h));
  }

  /** A point right of `cols*cw`, below `rows*ch`, or left of / above the image
      lies in no cell: the strip cut off by the truncating division is dead. */
  lemma OutsideCoveredAreaLocatesNothing(w: nat, h: nat, x: int, y: int)
    requires x < 0 || y < 0 || x > GridCols * CellWidth(w) || y > GridRows * CellHeight(h)
    ensures Locate(GridCells(w, h), x, y).None?
  {
    var cells := GridCells(w, h);
    forall k | 0 <= k < |cells|
      ensures !Contains(cells[k], x, y)
    {
      CellInsideImage(k, w, h);
    }
  }

  /** The column whose (inclusive) span contains `x`, for `0 <= x <= cols*cw`. */
  function SpanIndex(x: nat, size: nat, n: nat): (j: nat)
    requires 0 < n && x <= n * size
    ensures j < n && j * size <= x <= j * size + size
  {
    if size == 0 then 0
    else if x / size < n then (
      assert x / size * size <= x < x / size * size + size;
      x / size)
    else (
      assert x / size >= n;
      MulMono(n, x / size, size);
      assert x == n * size;
      n - 1)
  }

  /** Conversely, every point of the covered area `[0, cols*cw] x [0, rows*ch]`
      falls in some cell. */
  lemma CoveredAreaLocatesSomeCell(w: nat, h: nat, x: int, y: int)
    requires 0 <= x <= GridCols * CellWidth(w) && 0 <= y <= GridRows * CellHeight(h)
    ensures Locate(GridCells(w, h), x, y).Some?
  {
    var j := SpanIndex(x, CellWidth(w), GridCols);
    var i := SpanIndex(y, CellHeight(h), GridRows);
    GridCellsRowMajor(i, j, w, h);
    assert Contains(GridCells(w, h)[i * GridCols + j], x, y);
  }

  /** `Locate` returns `idx` exactly when cell `idx` contains the point and no
      earlier cell does. */
  lemma LocateIsFirstMatch(cells: seq<Rect>, x: int, y: int, idx: nat)
    requires idx < |cells|
    ensures Locate(cells, x, y) == Some(idx) <==>
      Contains(cells[idx], x, y) && forall k :: 0 <= k < idx ==> !Contains(cells[k], x, y)
  {
  }

  /** In row-major order an earlier index is in an earlier row, or in the same
      row and an earlier column. */
  lemma EarlierIndex(k: nat, idx: nat)
    requires k < idx
    ensures k / GridCols < idx / GridCols ||
      (k / GridCols == idx / GridCols && k % GridCols < idx % GridCols)
  {
  }

  /** A point strictly inside cell `idx` resolves to `idx`: no earlier cell in
      row-major order reaches it, even though adjacent cells share edges. */
  lemma InteriorPointLocatesCell(idx: nat, w: nat, h: nat, x: int, y: int)
    requires idx < CellCount
    requires var r := CellRect(idx, w, h); r.x1 < x < r.x2 && r.y1 < y < r.y2
    ensures Locate(GridCells(w, h), x, y) == Some(idx)
  {
    var cells := GridCells(w, h);
    var i, j := idx / GridCols, idx % GridCols;
    forall k | 0 <= k < idx
      ensures !Contains(cells[k], x, y)
    {
      var i', j' := k / GridCols, k % GridCols;
      EarlierIndex(k, idx);
      if i' < i {
        MulMono(i' + 1, i, CellHeight(h));
        assert cells[k].y2 == (i' + 1) * CellHeight(h);
      } else {
        MulMono(j' + 1, j, CellWidth(w));
        assert cells[k].x2 == (j' + 1) * CellWidth(w);
      }
    }
    LocateIsFirstMatch(cells, x, y, idx);
  }

  /** A point on the shared corner of cells resolves to the earliest of them:
      the bottom-right corner of cell 0 (when cells are non-empty) lies in
      cells 0, 1, cols and cols+1, and the scan returns 0. */
  lemma SharedCornerGoesToFirstCell(w: nat, h: nat)
    ensures var cw, ch := CellWidth(w), CellHeight(h);
      Contains(GridCells(w, h)[1], cw, ch) &&
      Contains(GridCells(w, h)[GridCols], cw, ch) &&
      Locate(GridCells(w, h), cw, ch) == Some(0)
  {
  }
}
