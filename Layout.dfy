/**
 * Cell addressing shared by the mesh UV remap and the atlas placement, and the
 * UV arithmetic of the remap. Floating-point values are idealised as `real`:
 * IEEE rounding of `1f / x`, of the products and of the sums is not modelled.
 */
module Layout {

  /** A texture coordinate (Unity `Vector2`). */
  datatype UV = UV(u: real, v: real)

  /** A normalised rectangle (Unity `Rect`): origin plus size. */
  datatype Rect = Rect(x: real, y: real, width: real, height: real)

  /** A grid cell: column counted along u, row counted along v. */
  datatype CellPos = CellPos(column: nat, row: nat)

  /** The atlas grid (`Vector2Int`: x = columns, y = rows). */
  datatype Grid = Grid(columns: int, rows: int) {
    predicate Valid() { columns >= 1 && rows >= 1 }

    function CellCount(): int { columns * rows }

    /** Width of one cell in UV space (`1f / x`). */
    function StepU(): (s: real)
      requires Valid()
      ensures 0.0 < s <= 1.0
    {
      1.0 / columns as real
    }

    /** Height of one cell in UV space (`1f / y`). */
    function StepV(): (s: real)
      requires Valid()
      ensures 0.0 < s <= 1.0
    {
      1.0 / rows as real
    }
  }

  const Origin := UV(0.0, 0.0)

  /** The source rectangle covering a whole texture. */
  const FullRect := Rect(0.0, 0.0, 1.0, 1.0)

  /**
   * Linear cell index t to (column, row), row-major with `columns` cells per
   * row: column = t % columns, row = t / columns.
   */
  function Cell(t: nat, grid: Grid): (c: CellPos)
    requires grid.Valid()
    ensures c.column < grid.columns
    ensures t == c.row * grid.columns + c.column
  {
    CellPos(t % grid.columns, t / grid.columns)
  }

  /** Cell is the inverse of row-major numbering: each (column, row) has exactly one index. */
  lemma CellOfIndex(grid: Grid, column: nat, row: nat)
    requires grid.Valid() && column < grid.columns
    ensures Cell(row * grid.columns + column, grid) == CellPos(column, row)
  {
    DivModUnique(row * grid.columns + column, grid.columns, row, column);
  }

  /** Euclidean division is determined by its quotient-remainder equation. */
  lemma DivModUnique(t: int, n: int, q: int, r: int)
    requires n >= 1 && 0 <= r < n && t == q * n + r
    ensures t / n == q && t % n == r
  {
    var q', r' := t / n, t % n;
    var d := q - q';
    assert q * n == q' * n + d * n;
    assert d * n == r' - r;
    if d >= 1 {
      MulAtLeast(d, n);
    } else if d <= -1 {
      MulAtLeast(-d, n);
    }
  }

  lemma MulAtLeast(a: int, n: int)
    requires a >= 1 && n >= 1
    ensures a * n >= n
  {
    assert a * n == (a - 1) * n + n;
    assert (a - 1) * n >= 0;
  }

  /** Distinct indices address distinct cells. */
  lemma CellInjective(t1: nat, t2: nat, grid: Grid)
    requires grid.Valid() && Cell(t1, grid) == Cell(t2, grid)
    ensures t1 == t2
  {
  }

  /** An index lies inside the grid exactly when its row does. */
  lemma CellInGrid(t: nat, grid: Grid)
    requires grid.Valid()
    ensures t < grid.CellCount() <==> Cell(t, grid).row < grid.rows
  {
    var c := Cell(t, grid);
    if c.row < grid.rows {
      MulMonotone(c.row + 1, grid.rows, grid.columns);
      assert (c.row + 1) * grid.columns == c.row * grid.columns + grid.columns;
    } else {
      MulMonotone(grid.rows, c.row, grid.columns);
    }
  }

  lemma MulMonotone(a: int, b: int, n: int)
    requires 0 <= a <= b && n >= 0
    ensures a * n <= b * n
  {
    assert b * n == a * n + (b - a) * n;
  }

  /**
   * `Mathf.Repeat(x, 1f)`: x wrapped into [0, 1) by subtracting its floor
   * (the clamp Unity applies afterwards changes nothing over the reals).
   */
  function Repeat(x: real): (r: real)
    ensures 0.0 <= r < 1.0
    ensures (x - r).Floor as real == x - r
  {
    x - x.Floor as real
  }

  /** Values already in [0, 1) are left as they are. */
  lemma RepeatInUnit(x: real)
    requires 0.0 <= x < 1.0
    ensures Repeat(x) == x
  {
    assert x.Floor == 0;
  }

  /** Repeat has period one. */
  lemma RepeatPeriodic(x: real, n: int)
    ensures Repeat(x + n as real) == Repeat(x)
  {
    assert (x + n as real).Floor == x.Floor + n;
  }

  /** Position of the k-th cell edge for cells of size s. */
  function Edge(k: int, s: real): real {
    k as real * s
  }

  /** The cell rectangle of index t in UV space. */
  function CellRect(t: nat, grid: Grid): Rect
    requires grid.Valid()
  {
    var c := Cell(t, grid);
    Rect(Edge(c.column, grid.StepU()), Edge(c.row, grid.StepV()), grid.StepU(), grid.StepV())
  }

  /** Half-open containment of a point in a rectangle. */
  predicate InRect(p: UV, r: Rect) {
    r.x <= p.u < r.x + r.width && r.y <= p.v < r.y + r.height
  }

  /** The lower-left corner of the cell of index t (`uvOffset` in the merge). */
  function CellOffset(t: nat, grid: Grid): UV
    requires grid.Valid()
  {
    var c := Cell(t, grid);
    UV(Edge(c.column, grid.StepU()), Edge(c.row, grid.StepV()))
  }

  /** A UV wrapped into [0, 1), scaled to one cell and moved by offset (lines 55-57 of the merge). */
  function Place(uv: UV, offset: UV, grid: Grid): UV
    requires grid.Valid()
  {
    UV(Repeat(uv.u) * grid.StepU() + offset.u, Repeat(uv.v) * grid.StepV() + offset.v)
  }

  /**
   * The UV a vertex of the submesh with global index t receives (lines 43-46
   * and 55-57 of the merge): the wrapped original UV placed in that cell.
   */
  function Remap(uv: UV, t: nat, grid: Grid): UV
    requires grid.Valid()
  {
    Place(uv, CellOffset(t, grid), grid)
  }

  /** a * s lies in [0, s) for a in [0, 1) and a positive s. */
  lemma ScaleBelow(a: real, s: real)
    requires 0.0 <= a < 1.0 && s > 0.0
    ensures 0.0 <= a * s < s
  {
  }

  /** Every remapped UV lies in the cell of its submesh, whatever the authored UV. */
  lemma RemapInCell(uv: UV, t: nat, grid: Grid)
    requires grid.Valid()
    ensures InRect(Remap(uv, t, grid), CellRect(t, grid))
  {
    ScaleBelow(Repeat(uv.u), grid.StepU());
    ScaleBelow(Repeat(uv.v), grid.StepV());
  }

  /** Cells of distinct indices do not overlap, so no two submeshes share UV space. */
  lemma CellsDisjoint(p: UV, t1: nat, t2: nat, grid: Grid)
    requires grid.Valid() && t1 != t2
    ensures !(InRect(p, CellRect(t1, grid)) && InRect(p, CellRect(t2, grid)))
  {
    var c1, c2 := Cell(t1, grid), Cell(t2, grid);
    if c1.column < c2.column {
      IntervalsDisjoint(c1.column, c2.column, grid.StepU(), p.u);
    } else if c2.column < c1.column {
      IntervalsDisjoint(c2.column, c1.column, grid.StepU(), p.u);
    } else if c1.row < c2.row {
      IntervalsDisjoint(c1.row, c2.row, grid.StepV(), p.v);
    } else if c2.row < c1.row {
      IntervalsDisjoint(c2.row, c1.row, grid.StepV(), p.v);
    } else {
      CellInjective(t1, t2, grid);
    }
  }

  /** The intervals [a * s, a * s + s) and [b * s, b * s + s) of a < b are disjoint. */
  lemma IntervalsDisjoint(a: nat, b: nat, s: real, x: real)
    requires a < b && s > 0.0
    ensures !(Edge(a, s) <= x < Edge(a, s) + s && Edge(b, s) <= x < Edge(b, s) + s)
  {
    EdgeOrder(a, b, s);
  }

  /** Edges grow with their number. */
  lemma EdgeMonotone(a: nat, b: nat, s: real)
    requires a <= b && s > 0.0
    ensures Edge(a, s) <= Edge(b, s)
  {
    assert (b - a) as real * s >= 0.0;
    assert b as real * s == a as real * s + (b - a) as real * s;
  }

  /** The far edge of cell a, Edge(a) + s, is at most the near edge of any later cell b. */
  lemma EdgeOrder(a: nat, b: nat, s: real)
    requires a < b && s > 0.0
    ensures Edge(a, s) + s <= Edge(b, s)
  {
    EdgeMonotone(a + 1, b, s);
    assert (a + 1) as real * s == a as real * s + s;
  }

  /** n cells of width 1 / n fill the unit interval. */
  lemma StepsFillUnit(n: int)
    requires n >= 1
    ensures Edge(n, 1.0 / n as real) == 1.0
  {
  }

  /** The cells of the indices below the cell count tile the unit square: each lies inside it. */
  lemma CellRectInUnit(t: nat, grid: Grid)
    requires grid.Valid() && t < grid.CellCount()
    ensures var r := CellRect(t, grid);
            0.0 <= r.x && r.x + r.width <= 1.0 && 0.0 <= r.y && r.y + r.height <= 1.0
  {
    var c := Cell(t, grid);
    CellInGrid(t, grid);
    EdgeMonotone(0, c.column, grid.StepU());
    EdgeMonotone(0, c.row, grid.StepV());
    EdgeOrder(c.column, grid.columns, grid.StepU());
    EdgeOrder(c.row, grid.rows, grid.StepV());
    StepsFillUnit(grid.columns);
    StepsFillUnit(grid.rows);
  }

  /** Every a in [0, 1) lies in exactly the cell number floor(a * n) of n cells of width 1 / n. */
  lemma FloorCell(a: real, n: int) returns (k: nat)
    requires n >= 1 && 0.0 <= a < 1.0
    ensures k < n && Edge(k, 1.0 / n as real) <= a < Edge(k, 1.0 / n as real) + 1.0 / n as real
  {
    var s := 1.0 / n as real;
    var x := a * n as real;
    assert 0.0 <= x < n as real;
    k := x.Floor;
    assert k as real <= x < k as real + 1.0;
    assert a == x * s;
    assert Edge(k, s) == k as real * s;
    assert k as real * s <= x * s;
    assert x * s < (k as real + 1.0) * s;
  }

  /** The cells of the indices below the cell count leave no gap: every point of the unit square is in one. */
  lemma CellsCover(p: UV, grid: Grid) returns (t: nat)
    requires grid.Valid() && 0.0 <= p.u < 1.0 && 0.0 <= p.v < 1.0
    ensures t < grid.CellCount() && InRect(p, CellRect(t, grid))
  {
    var column := FloorCell(p.u, grid.columns);
    var row := FloorCell(p.v, grid.rows);
    t := row * grid.columns + column;
    CellOfIndex(grid, column, row);
    CellInGrid(t, grid);
  }

  /** Indices below the cell count are mapped into the unit square. */
  lemma RemapInUnitSquare(uv: UV, t: nat, grid: Grid)
    requires grid.Valid() && t < grid.CellCount()
    ensures var p := Remap(uv, t, grid); 0.0 <= p.u < 1.0 && 0.0 <= p.v < 1.0
  {
    RemapInCell(uv, t, grid);
    CellRectInUnit(t, grid);
  }

  /**
   * There is no overflow check: an index at or beyond the cell count gets a
   * row of at least `rows`, and its v coordinate leaves the unit square.
   */
  lemma RemapOverflow(uv: UV, t: nat, grid: Grid)
    requires grid.Valid() && t >= grid.CellCount()
    ensures Cell(t, grid).row >= grid.rows
    ensures Remap(uv, t, grid).v >= 1.0
  {
    var c := Cell(t, grid);
    CellInGrid(t, grid);
    RemapInCell(uv, t, grid);
    EdgeMonotone(grid.rows, c.row, grid.StepV());
    StepsFillUnit(grid.rows);
  }

  /** With a 1 x 1 grid the remap only wraps the UV; UVs already in [0, 1) are unchanged. */
  lemma RemapSingleCell(uv: UV)
    requires 0.0 <= uv.u < 1.0 && 0.0 <= uv.v < 1.0
    ensures Remap(uv, 0, Grid(1, 1)) == uv
  {
    RepeatInUnit(uv.u);
    RepeatInUnit(uv.v);
  }
}
