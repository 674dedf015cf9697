/**
 * The texture atlas: each texture of a list is drawn into one cell of a grid
 * on a render texture, which is then read back into a new texture. The GPU
 * draw is modelled as a recorded event: a render texture keeps the list of
 * quads drawn into it, and a texture read back from it keeps that list as its
 * content.
 */
module Atlas {
  import opened Layout

  /** One shader pass: `source` sampled over `sourceRect`, drawn as a quad over `targetRect`. */
  datatype Blit = Blit(source: Texture2D, sourceRect: Rect, targetRect: Rect)

  /** A texture size in pixels (`Vector2Int resolution`). */
  datatype Size = Size(x: int, y: int)

  /** A CPU-side texture; `pixels` is what was read back into it. */
  class Texture2D {
    const width: int
    const height: int
    var pixels: seq<Blit>

    constructor (width: int, height: int)
      ensures this.width == width && this.height == height && pixels == []
    {
      this.width := width;
      this.height := height;
      pixels := [];
    }

    /** `ReadPixels` over the whole texture: copy what the active render target holds. */
    method ReadPixels(gfx: Graphics)
      requires gfx.active != null
      modifies this
      ensures pixels == gfx.active.blits
    {
      pixels := gfx.active.blits;
    }
  }

  /** A GPU render target: the quads drawn into it, in order, and its update counter. */
  class RenderTexture {
    const width: int
    const height: int
    var blits: seq<Blit>
    var updateCount: nat
    var released: bool

    constructor (width: int, height: int)
      ensures this.width == width && this.height == height
      ensures blits == [] && updateCount == 0 && !released
    {
      this.width := width;
      this.height := height;
      blits := [];
      updateCount := 0;
      released := false;
    }

    /** `IncrementUpdateCount`. */
    method IncrementUpdateCount()
      modifies this
      ensures blits == old(blits) && updateCount == old(updateCount) + 1 && released == old(released)
    {
      updateCount := updateCount + 1;
    }

    /** `Release`: the GPU memory is freed; the recorded draws stay as they were. */
    method Release()
      modifies this
      ensures blits == old(blits) && updateCount == old(updateCount) && released
    {
      released := true;
    }
  }

  /** The global rendering state: `RenderTexture.active`, where draws land. */
  class Graphics {
    var active: RenderTexture?

    /** `Graphics.DrawMeshNow` of the unit quad with the material set up for blit b. */
    method DrawNow(b: Blit)
      requires active != null
      modifies active
      ensures active.blits == old(active.blits) + [b]
      ensures active.updateCount == old(active.updateCount) && active.released == old(active.released)
    {
      active.blits := active.blits + [b];
    }
  }

  /**
   * Lines 110-129: a null source draws nothing. Otherwise the target becomes
   * the active render target, one quad is drawn into it, its update count
   * goes up by one and the previously active target is restored. No other
   * render texture changes, so the previously active one receives nothing.
   */
  method Copy(gfx: Graphics, source: Texture2D?, sourceUVRect: Rect, target: RenderTexture, targetUVRect: Rect)
    modifies gfx, target
    ensures gfx.active == old(gfx.active)
    ensures target.released == old(target.released)
    ensures source == null ==> target.blits == old(target.blits) && target.updateCount == old(target.updateCount)
    ensures source != null ==>
              && target.blits == old(target.blits) + [Blit(source, sourceUVRect, targetUVRect)]
              && target.updateCount == old(target.updateCount) + 1
  {
    if source == null {
      return;
    }
    var prevActive := gfx.active;
    gfx.active := target;
    gfx.DrawNow(Blit(source, sourceUVRect, targetUVRect));
    target.IncrementUpdateCount();
    gfx.active := prevActive;
  }

  /**
   * The order in which the grid walk meets the cells. As written the outer
   * loop runs over `x` and the inner over `y`, so slot i has c = i % y and
   * r = i / y; row-major numbering, the one the mesh merge uses, has
   * c = i % x and r = i / x.
   */
  datatype Walk = AsWritten | RowMajor

  /** The same grid with the roles of x and y exchanged. */
  function Transposed(grid: Grid): (g: Grid)
    ensures grid.Valid() ==> g.Valid() && g.CellCount() == grid.CellCount()
  {
    Grid(grid.rows, grid.columns)
  }

  /** The cell (c, r) the walk visits as its i-th slot. */
  function SlotCell(i: nat, grid: Grid, walk: Walk): CellPos
    requires grid.Valid()
  {
    match walk
    case AsWritten => Cell(i, Transposed(grid))
    case RowMajor => Cell(i, grid)
  }

  /** Line 94: the destination rect of slot i, `(c * stepX, r * stepY, stepX, stepY)`. */
  function SlotRect(i: nat, grid: Grid, walk: Walk): Rect
    requires grid.Valid()
  {
    var c := SlotCell(i, grid, walk);
    Rect(Edge(c.column, grid.StepU()), Edge(c.row, grid.StepV()), grid.StepU(), grid.StepV())
  }

  /** The number of slots the two nested loops visit: none when either bound is below one. */
  function SlotCount(grid: Grid): nat
  {
    if grid.Valid() then grid.columns * grid.rows else 0
  }

  function Min(a: int, b: int): int {
    if a < b then a else b
  }

  /**
   * The quads drawn for the first n textures: texture i, when it is not
   * null, sampled whole and drawn into the rect of slot i.
   */
  function Placed(textures: seq<Texture2D?>, n: nat, grid: Grid, walk: Walk): (r: seq<Blit>)
    requires n <= |textures| && (n == 0 || grid.Valid())
    ensures |r| <= n
  {
    if n == 0 then []
    else
      var k := n - 1;
      Placed(textures, k, grid, walk) +
      (if textures[k] == null then [] else [Blit(textures[k], FullRect, SlotRect(k, grid, walk))])
  }

  /** The quads the whole walk draws: one per texture below min(Count, x * y). */
  function AtlasBlits(textures: seq<Texture2D?>, grid: Grid, walk: Walk): seq<Blit>
  {
    Placed(textures, Min(|textures|, SlotCount(grid)), grid, walk)
  }

  /**
   * Lines 82-107 as written: walk r < x, c < y, blit texture i (a null one
   * draws nothing but uses its slot) into the rect of (c, r), then read the
   * work texture back. RenderTexture.active ends null.
   */
  method MergeTexturesInGridLayout(gfx: Graphics, resolution: Size, gridDimensions: Grid, textures: seq<Texture2D?>)
    returns (resultTexture: Texture2D)
    modifies gfx
    ensures fresh(resultTexture)
    ensures resultTexture.width == resolution.x && resultTexture.height == resolution.y
    ensures resultTexture.pixels == AtlasBlits(textures, gridDimensions, AsWritten)
    ensures gfx.active == null
  {
    resultTexture := new Texture2D(resolution.x, resolution.y);
    var workTexture := new RenderTexture(resolution.x, resolution.y);
    var x, y := gridDimensions.columns, gridDimensions.rows;
    ghost var ys := if y > 0 then y else 0;
    var i := 0;
    var r := 0;
    while r < x
      invariant 0 <= r && (r == 0 || r <= x)
      invariant i == Min(r * ys, |textures|)
      invariant i > 0 ==> gridDimensions.Valid()
      invariant workTexture.blits == Placed(textures, i, gridDimensions, AsWritten)
      invariant fresh(workTexture) && !workTexture.released
    {
      var c := 0;
      while c < y
        invariant 0 <= c && (c == 0 || c <= y)
        invariant i == Min(r * ys + c, |textures|)
        invariant i > 0 ==> gridDimensions.Valid()
        invariant workTexture.blits == Placed(textures, i, gridDimensions, AsWritten)
        invariant fresh(workTexture) && !workTexture.released
      {
        if i < |textures| {
          CellOfIndex(Transposed(gridDimensions), c, r);
          var destRect := Rect(Edge(c, gridDimensions.StepU()), Edge(r, gridDimensions.StepV()),
                               gridDimensions.StepU(), gridDimensions.StepV());
          Copy(gfx, textures[i], FullRect, workTexture, destRect);
          i := i + 1;
        }
        c := c + 1;
      }
      assert r * ys + ys == (r + 1) * ys;
      r := r + 1;
    }
    SlotsVisited(x, y, r);
    gfx.active := workTexture;
    resultTexture.ReadPixels(gfx);
    gfx.active := null;
    workTexture.Release();
  }

  /**
   * The walk the mesh merge's cell numbering calls for: rows r < y outside,
   * columns c < x inside, so texture i lands in the cell of submesh i.
   */
  method MergeTexturesRowMajor(gfx: Graphics, resolution: Size, gridDimensions: Grid, textures: seq<Texture2D?>)
    returns (resultTexture: Texture2D)
    modifies gfx
    ensures fresh(resultTexture)
    ensures resultTexture.width == resolution.x && resultTexture.height == resolution.y
    ensures resultTexture.pixels == AtlasBlits(textures, gridDimensions, RowMajor)
    ensures gfx.active == null
  {
    resultTexture := new Texture2D(resolution.x, resolution.y);
    var workTexture := new RenderTexture(resolution.x, resolution.y);
    var x, y := gridDimensions.columns, gridDimensions.rows;
    ghost var xs := if x > 0 then x else 0;
    var i := 0;
    var r := 0;
    while r < y
      invariant 0 <= r && (r == 0 || r <= y)
      invariant i == Min(r * xs, |textures|)
      invariant i > 0 ==> gridDimensions.Valid()
      invariant workTexture.blits == Placed(textures, i, gridDimensions, RowMajor)
      invariant fresh(workTexture) && !workTexture.released
    {
      var c := 0;
      while c < x
        invariant 0 <= c && (c == 0 || c <= x)
        invariant i == Min(r * xs + c, |textures|)
        invariant i > 0 ==> gridDimensions.Valid()
        invariant workTexture.blits == Placed(textures, i, gridDimensions, RowMajor)
        invariant fresh(workTexture) && !workTexture.released
      {
        if i < |textures| {
          CellOfIndex(gridDimensions, c, r);
          var destRect := Rect(Edge(c, gridDimensions.StepU()), Edge(r, gridDimensions.StepV()),
                               gridDimensions.StepU(), gridDimensions.StepV());
          Copy(gfx, textures[i], FullRect, workTexture, destRect);
          i := i + 1;
        }
        c := c + 1;
      }
      assert r * xs + xs == (r + 1) * xs;
      r := r + 1;
    }
    SlotsVisited(y, x, r);
    assert y * x == x * y;
    gfx.active := workTexture;
    resultTexture.ReadPixels(gfx);
    gfx.active := null;
    workTexture.Release();
  }

  /** After an outer loop of r < outer, r times the inner bound is the number of slots visited. */
  lemma SlotsVisited(outer: int, inner: int, r: int)
    requires 0 <= r && (r == 0 || r <= outer) && r >= outer
    ensures r * (if inner > 0 then inner else 0) == if outer >= 1 && inner >= 1 then outer * inner else 0
  {
  }

  /** Distinct cell numbers have distinct edges. */
  lemma EdgeInjective(a: nat, b: nat, s: real)
    requires s > 0.0 && Edge(a, s) == Edge(b, s)
    ensures a == b
  {
    if a < b {
      EdgeOrder(a, b, s);
    } else if b < a {
      EdgeOrder(b, a, s);
    }
  }

  /** Distinct slots of either walk get distinct rects. */
  lemma SlotRectInjective(i: nat, j: nat, grid: Grid, walk: Walk)
    requires grid.Valid() && SlotRect(i, grid, walk) == SlotRect(j, grid, walk)
    ensures i == j
  {
    var ci, cj := SlotCell(i, grid, walk), SlotCell(j, grid, walk);
    EdgeInjective(ci.column, cj.column, grid.StepU());
    EdgeInjective(ci.row, cj.row, grid.StepV());
    match walk
    case AsWritten => CellInjective(i, j, Transposed(grid));
    case RowMajor => CellInjective(i, j, grid);
  }

  /**
   * A quad is drawn for the first n slots exactly when it samples a non-null
   * texture i < n whole and covers the rect of slot i.
   */
  lemma {:induction false} PlacedMember(textures: seq<Texture2D?>, n: nat, grid: Grid, walk: Walk, b: Blit)
    requires n <= |textures| && (n == 0 || grid.Valid())
    ensures b in Placed(textures, n, grid, walk) <==>
            exists i | 0 <= i < n :: textures[i] != null && grid.Valid() && b == Blit(textures[i], FullRect, SlotRect(i, grid, walk))
  {
    if n > 0 {
      var k := n - 1;
      PlacedMember(textures, k, grid, walk, b);
      if b in Placed(textures, n, grid, walk) && b !in Placed(textures, k, grid, walk) {
        assert textures[k] != null && b == Blit(textures[k], FullRect, SlotRect(k, grid, walk));
      }
    }
  }

  /** The quads are drawn in slot order: quad j of the walk comes from a slot before quad j + 1's. */
  lemma {:induction false} PlacedInSlotOrder(textures: seq<Texture2D?>, n: nat, grid: Grid, walk: Walk, j: nat)
    requires n <= |textures| && grid.Valid() && j + 1 < |Placed(textures, n, grid, walk)|
    ensures exists i1, i2 | 0 <= i1 < i2 < n ::
              Placed(textures, n, grid, walk)[j].targetRect == SlotRect(i1, grid, walk) &&
              Placed(textures, n, grid, walk)[j + 1].targetRect == SlotRect(i2, grid, walk)
  {
    var k := n - 1;
    var p := Placed(textures, k, grid, walk);
    if j + 1 < |p| {
      PlacedInSlotOrder(textures, k, grid, walk, j);
    } else {
      assert j + 1 == |p| && textures[k] != null;
      assert p[j] in p;
      PlacedMember(textures, k, grid, walk, p[j]);
    }
  }

  /** A null texture uses up its slot but nothing is drawn there. */
  lemma NullTextureDrawsNothing(textures: seq<Texture2D?>, n: nat, grid: Grid, walk: Walk, k: nat)
    requires n <= |textures| && grid.Valid() && k < n && textures[k] == null
    ensures forall b | b in Placed(textures, n, grid, walk) :: b.targetRect != SlotRect(k, grid, walk)
  {
    forall b | b in Placed(textures, n, grid, walk)
      ensures b.targetRect != SlotRect(k, grid, walk)
    {
      PlacedMember(textures, n, grid, walk, b);
      var i :| 0 <= i < n && textures[i] != null && b == Blit(textures[i], FullRect, SlotRect(i, grid, walk));
      if b.targetRect == SlotRect(k, grid, walk) {
        SlotRectInjective(i, k, grid, walk);
      }
    }
  }

  /** The quads for the first n slots depend on the first n textures only. */
  lemma {:induction false} PlacedPrefix(textures: seq<Texture2D?>, others: seq<Texture2D?>, n: nat, grid: Grid, walk: Walk)
    requires n <= |textures| && n <= |others| && textures[..n] == others[..n] && (n == 0 || grid.Valid())
    ensures Placed(textures, n, grid, walk) == Placed(others, n, grid, walk)
  {
    if n > 0 {
      assert textures[..n - 1] == others[..n - 1] by {
        assert textures[..n - 1] == textures[..n][..n - 1];
        assert others[..n - 1] == others[..n][..n - 1];
      }
      assert textures[n - 1] == textures[..n][n - 1];
      assert others[n - 1] == others[..n][n - 1];
      PlacedPrefix(textures, others, n - 1, grid, walk);
    }
  }

  /** Textures past the last of the x * y slots are never drawn: dropping them changes nothing. */
  lemma ExtraTexturesIgnored(textures: seq<Texture2D?>, grid: Grid, walk: Walk)
    ensures AtlasBlits(textures, grid, walk) == AtlasBlits(textures[..Min(|textures|, SlotCount(grid))], grid, walk)
  {
    var n := Min(|textures|, SlotCount(grid));
    var kept := textures[..n];
    assert Min(|kept|, SlotCount(grid)) == n;
    assert kept[..n] == textures[..n];
    PlacedPrefix(textures, kept, n, grid, walk);
  }

  /**
   * As written, every slot lies on the cell the mesh merge assigns to the
   * same index exactly when the grid is square.
   */
  lemma SlotsMatchCellsIff(grid: Grid)
    requires grid.Valid()
    ensures (forall i: nat | i < grid.CellCount() :: SlotRect(i, grid, AsWritten) == CellRect(i, grid)) <==>
            grid.columns == grid.rows
  {
    if grid.columns != grid.rows {
      var i := Min(grid.columns, grid.rows);
      SlotCellAtMin(grid);
      assert SlotRect(i, grid, AsWritten) != CellRect(i, grid) by {
        if grid.columns < grid.rows {
          StepsFillUnit(grid.columns);
          assert Edge(0, grid.StepU()) == 0.0;
        } else {
          EdgeMonotone(1, Cell(i, grid).column, grid.StepU());
          assert Edge(1, grid.StepU()) > 0.0;
        }
      }
    }
  }

  /** Where slot min(x, y) falls under each numbering of a non-square grid. */
  lemma SlotCellAtMin(grid: Grid)
    requires grid.Valid() && grid.columns != grid.rows
    ensures Min(grid.columns, grid.rows) < grid.CellCount()
    ensures var i := Min(grid.columns, grid.rows);
            if grid.columns < grid.rows then
              Cell(i, Transposed(grid)).column == grid.columns && Cell(i, grid).column == 0
            else
              Cell(i, Transposed(grid)).column == 0 && Cell(i, grid).column == grid.rows
  {
    var i := Min(grid.columns, grid.rows);
    MinBelowCellCount(grid);
    if grid.columns < grid.rows {
      CellOfIndex(Transposed(grid), grid.columns, 0);
      CellOfIndex(grid, 0, 1);
    } else {
      CellOfIndex(Transposed(grid), 0, 1);
      CellOfIndex(grid, grid.rows, 0);
    }
  }

  /** On a non-square grid, slot min(x, y) is one the walk visits. */
  lemma MinBelowCellCount(grid: Grid)
    requires grid.Valid() && grid.columns != grid.rows
    ensures Min(grid.columns, grid.rows) < grid.CellCount()
  {
    if grid.columns < grid.rows {
      MulMonotone(2, grid.rows, grid.columns);
      assert grid.rows * grid.columns == grid.CellCount();
    } else {
      MulMonotone(2, grid.columns, grid.rows);
    }
  }

  /**
   * The input that shows the mismatch: two textures on a grid of x = 2,
   * y = 1. As written the second is drawn at (0, 1), above the unit square,
   * where the mesh merge puts submesh 1 at (0.5, 0).
   */
  lemma AsWrittenMisplacesSecondTexture(first: Texture2D, second: Texture2D, uv: UV)
    ensures AtlasBlits([first, second], Grid(2, 1), AsWritten) ==
            [Blit(first, FullRect, Rect(0.0, 0.0, 0.5, 1.0)), Blit(second, FullRect, Rect(0.0, 1.0, 0.5, 1.0))]
    ensures CellRect(1, Grid(2, 1)) == Rect(0.5, 0.0, 0.5, 1.0)
    ensures !InRect(Remap(uv, 1, Grid(2, 1)), Rect(0.0, 1.0, 0.5, 1.0))
  {
    var g := Grid(2, 1);
    var ts: seq<Texture2D?> := [first, second];
    CellOfIndex(Transposed(g), 0, 0);
    CellOfIndex(Transposed(g), 0, 1);
    CellOfIndex(g, 1, 0);
    assert g.StepU() == 0.5 && g.StepV() == 1.0;
    assert SlotRect(0, g, AsWritten) == Rect(0.0, 0.0, 0.5, 1.0);
    assert SlotRect(1, g, AsWritten) == Rect(0.0, 1.0, 0.5, 1.0);
    assert Min(|ts|, SlotCount(g)) == 2;
    assert Placed(ts, 1, g, AsWritten) == [Blit(first, FullRect, Rect(0.0, 0.0, 0.5, 1.0))];
    RemapInCell(uv, 1, g);
  }

  /**
   * Row-major, texture k is drawn into the cell of submesh k, so every
   * vertex of the k-th merged submesh samples texture k.
   */
  lemma RowMajorMatchesMesh(textures: seq<Texture2D?>, grid: Grid, k: nat, uv: UV)
    requires grid.Valid() && k < |textures| && k < grid.CellCount() && textures[k] != null
    ensures Blit(textures[k], FullRect, CellRect(k, grid)) in AtlasBlits(textures, grid, RowMajor)
    ensures InRect(Remap(uv, k, grid), CellRect(k, grid))
  {
    var n := Min(|textures|, SlotCount(grid));
    assert SlotRect(k, grid, RowMajor) == CellRect(k, grid);
    PlacedMember(textures, n, grid, RowMajor, Blit(textures[k], FullRect, CellRect(k, grid)));
    RemapInCell(uv, k, grid);
  }
}
