/**
 * Lane bookkeeping for edge routing in the grid layouts: every grid cell keeps, per lane
 * index, whether an edge already runs there, and a new horizontal or vertical edge takes the
 * lowest lane free along its whole run.
 */
module GridEdges {
  import opened Common

  /** Per grid cell (row, then column), which lane indices are taken by an edge. */
  type EdgesVector = seq<seq<seq<bool>>>

  /** Row and column name a cell of the grid. */
  predicate InGrid(edges: EdgesVector, row: int, col: int) {
    0 <= row < |edges| && 0 <= col < |edges[row]|
  }

  /** Both grids have the same rows and columns. */
  predicate SameGrid(a: EdgesVector, b: EdgesVector) {
    |a| == |b| && forall r :: 0 <= r < |a| ==> |a[r]| == |b[r]|
  }

  /** Whether lane `index` of a cell is taken; lanes past the stored ones are free. */
  function IsEdgeMarked(edges: EdgesVector, row: int, col: int, index: nat): bool
    requires InGrid(edges, row, col)
  {
    index < |edges[row][col]| && edges[row][col][index]
  }

  /** Sets lane `index` of one cell to `used`, first padding the cell's lanes with free ones. */
  method MarkEdge(edges: EdgesVector, row: int, col: int, index: nat, used: bool) returns (edges': EdgesVector)
    requires InGrid(edges, row, col)
    ensures SameGrid(edges', edges)
    ensures |edges'[row][col]| == Max(|edges[row][col]|, index + 1)
    ensures forall r, c, i :: InGrid(edges, r, c) ==>
      IsEdgeMarked(edges', r, c, i) == if r == row && c == col && i == index then used else IsEdgeMarked(edges, r, c, i)
  {
    var lanes := edges[row][col];
    while |lanes| <= index
      invariant |edges[row][col]| <= |lanes| <= Max(|edges[row][col]|, index + 1)
      invariant lanes[..|edges[row][col]|] == edges[row][col]
      invariant forall i :: |edges[row][col]| <= i < |lanes| ==> !lanes[i]
      decreases index + 1 - |lanes|
    {
      lanes := lanes + [false];
    }
    lanes := lanes[index := used];
    edges' := edges[row := edges[row][col := lanes]];
  }

  /** The most lanes any cell of one grid row stores. */
  function MaxLanesRow(cells: seq<seq<bool>>): (m: nat)
    ensures forall c :: 0 <= c < |cells| ==> |cells[c]| <= m
  {
    if |cells| == 0 then 0
    else
      var m := MaxLanesRow(cells[..|cells| - 1]);
      assert forall c :: 0 <= c < |cells| - 1 ==> cells[c] == cells[..|cells| - 1][c];
      if |cells[|cells| - 1]| > m then |cells[|cells| - 1]| else m
  }

  /** The most lanes any cell of the grid stores; every lane from there on is free everywhere. */
  function MaxLanes(edges: EdgesVector): (m: nat)
    ensures forall r, c :: InGrid(edges, r, c) ==> |edges[r][c]| <= m
  {
    if |edges| == 0 then 0
    else
      var m := MaxLanes(edges[..|edges| - 1]);
      var last := MaxLanesRow(edges[|edges| - 1]);
      assert forall r, c :: InGrid(edges, r, c) && r < |edges| - 1 ==> InGrid(edges[..|edges| - 1], r, c);
      if last > m then last else m
  }

  /** Lane `j` is taken in at least one cell of row `row` from `minCol` to `maxCol`. */
  predicate TakenInRow(edges: EdgesVector, row: int, minCol: int, maxCol: int, j: nat)
    requires forall c :: minCol <= c <= maxCol ==> InGrid(edges, row, c)
  {
    exists c :: minCol <= c <= maxCol && IsEdgeMarked(edges, row, c, j)
  }

  /** Lane `j` is taken in at least one cell of column `col` from `minRow` to `maxRow`. */
  predicate TakenInColumn(edges: EdgesVector, col: int, minRow: int, maxRow: int, j: nat)
    requires forall r :: minRow <= r <= maxRow ==> InGrid(edges, r, col)
  {
    exists r :: minRow <= r <= maxRow && IsEdgeMarked(edges, r, col, j)
  }

  /**
   * The lowest lane free in every cell of row `row` from `minCol` to `maxCol`; that lane is
   * then marked taken in all those cells.
   */
  method FindHorizEdgeIndex(edges: EdgesVector, row: int, minCol: int, maxCol: int) returns (index: nat, edges': EdgesVector)
    requires forall c :: minCol <= c <= maxCol ==> InGrid(edges, row, c)
    ensures forall c :: minCol <= c <= maxCol ==> !IsEdgeMarked(edges, row, c, index)
    ensures forall j :: 0 <= j < index ==> TakenInRow(edges, row, minCol, maxCol, j)
    ensures SameGrid(edges', edges)
    ensures forall r, c, i :: InGrid(edges, r, c) ==>
      IsEdgeMarked(edges', r, c, i) == ((r == row && minCol <= c <= maxCol && i == index) || IsEdgeMarked(edges, r, c, i))
  {
    index := 0;
    while true
      invariant forall j :: 0 <= j < index ==> TakenInRow(edges, row, minCol, maxCol, j)
      decreases MaxLanes(edges) - index
    {
      var valid := true;
      var col := minCol;
      while col < maxCol + 1
        invariant minCol <= col && (col <= maxCol + 1 || col == minCol)
        invariant forall c :: minCol <= c < col ==> !IsEdgeMarked(edges, row, c, index)
      {
        if IsEdgeMarked(edges, row, col, index) {
          valid := false;
          break;
        }
        col := col + 1;
      }
      if valid {
        break;
      }
      assert TakenInRow(edges, row, minCol, maxCol, index);
      index := index + 1;
    }
    edges' := edges;
    var col := minCol;
    while col < maxCol + 1
      invariant minCol <= col && (col <= maxCol + 1 || col == minCol)
      invariant SameGrid(edges', edges)
      invariant forall r, c, i :: InGrid(edges, r, c) ==>
        IsEdgeMarked(edges', r, c, i) == ((r == row && minCol <= c < col && i == index) || IsEdgeMarked(edges, r, c, i))
    {
      assert InGrid(edges, row, col);
      edges' := MarkEdge(edges', row, col, index, true);
      col := col + 1;
    }
  }

  /**
   * The lowest lane free in every cell of column `col` from `minRow` to `maxRow`; that lane is
   * then marked taken in all those cells.
   */
  method FindVertEdgeIndex(edges: EdgesVector, col: int, minRow: int, maxRow: int) returns (index: nat, edges': EdgesVector)
    requires forall r :: minRow <= r <= maxRow ==> InGrid(edges, r, col)
    ensures forall r :: minRow <= r <= maxRow ==> !IsEdgeMarked(edges, r, col, index)
    ensures forall j :: 0 <= j < index ==> TakenInColumn(edges, col, minRow, maxRow, j)
    ensures SameGrid(edges', edges)
    ensures forall r, c, i :: InGrid(edges, r, c) ==>
      IsEdgeMarked(edges', r, c, i) == ((c == col && minRow <= r <= maxRow && i == index) || IsEdgeMarked(edges, r, c, i))
  {
    index := 0;
    while true
      invariant forall j :: 0 <= j < index ==> TakenInColumn(edges, col, minRow, maxRow, j)
      decreases MaxLanes(edges) - index
    {
      var valid := true;
      var row := minRow;
      while row < maxRow + 1
        invariant minRow <= row && (row <= maxRow + 1 || row == minRow)
        invariant forall r :: minRow <= r < row ==> !IsEdgeMarked(edges, r, col, index)
      {
        if IsEdgeMarked(edges, row, col, index) {
          valid := false;
          break;
        }
        row := row + 1;
      }
      if valid {
        break;
      }
      assert TakenInColumn(edges, col, minRow, maxRow, index);
      index := index + 1;
    }
    edges' := edges;
    var row := minRow;
    while row < maxRow + 1
      invariant minRow <= row && (row <= maxRow + 1 || row == minRow)
      invariant SameGrid(edges', edges)
      invariant forall r, c, i :: InGrid(edges, r, c) ==>
        IsEdgeMarked(edges', r, c, i) == ((c == col && minRow <= r < row && i == index) || IsEdgeMarked(edges, r, c, i))
    {
      assert InGrid(edges, row, col);
      edges' := MarkEdge(edges', row, col, index, true);
      row := row + 1;
    }
  }
}
