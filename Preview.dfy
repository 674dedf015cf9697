/**
 * The editor's grid preview: display rows are laid out top to bottom, while
 * cell rows count up from v = 0 at the bottom of the atlas.
 */
module Preview {
  import opened Layout

  /** The index of the texture shown in display row r (the top row first), column c. */
  function PreviewTile(r: int, c: int, grid: Grid): int {
    (grid.rows - 1) * grid.columns - r * grid.columns + c
  }

  /**
   * Display row r, column c shows the index whose row-major cell is column c
   * of cell row rows - 1 - r: the preview draws the grid bottom-up.
   */
  lemma PreviewShowsCell(grid: Grid, r: nat, c: nat)
    requires grid.Valid() && r < grid.rows && c < grid.columns
    ensures var t := PreviewTile(r, c, grid);
            && 0 <= t < grid.CellCount()
            && Cell(t, grid) == CellPos(c, grid.rows - 1 - r)
  {
    var row := grid.rows - 1 - r;
    assert PreviewTile(r, c, grid) == row * grid.columns + c;
    CellOfIndex(grid, c, row);
    CellInGrid(row * grid.columns + c, grid);
  }

  /** Every index of the grid is shown in exactly one tile. */
  lemma PreviewShowsEachIndexOnce(grid: Grid, t: nat)
    requires grid.Valid() && t < grid.CellCount()
    ensures exists r: nat, c: nat | r < grid.rows && c < grid.columns :: PreviewTile(r, c, grid) == t
    ensures forall r1: nat, c1: nat, r2: nat, c2: nat |
              r1 < grid.rows && c1 < grid.columns && r2 < grid.rows && c2 < grid.columns &&
              PreviewTile(r1, c1, grid) == t && PreviewTile(r2, c2, grid) == t ::
              r1 == r2 && c1 == c2
  {
    var cell := Cell(t, grid);
    CellInGrid(t, grid);
    var r: nat := grid.rows - 1 - cell.row;
    assert PreviewTile(r, cell.column, grid) == cell.row * grid.columns + cell.column;
    forall r1: nat, c1: nat, r2: nat, c2: nat |
      r1 < grid.rows && c1 < grid.columns && r2 < grid.rows && c2 < grid.columns &&
      PreviewTile(r1, c1, grid) == t && PreviewTile(r2, c2, grid) == t
      ensures r1 == r2 && c1 == c2
    {
      PreviewShowsCell(grid, r1, c1);
      PreviewShowsCell(grid, r2, c2);
    }
  }
}
