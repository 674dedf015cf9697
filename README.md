# Submesh merger: a verified model

This project models the runtime core of the Unity submesh merger. The core's
two jobs are:

- **`MergeMeshesAndSubmeshes`** takes a list of meshes and an atlas grid of
  `x` columns by `y` rows, and for every mesh:
  - copies the mesh (`Object.Instantiate`);
  - concatenates all its submesh index buffers into one;
  - gives each submesh the next cell of the grid from a counter `t`. The counter
    runs across all meshes and is never reset. The cell is column `t % x`,
    row `t / x`;
  - moves the UVs each submesh references into that cell, as
    `Repeat(uv) * step + offset`;
  - replaces the submesh table with one descriptor over all indices.

  The first submesh of the first mesh fixes the topology. Any later
  submesh with a different topology aborts the merge with an exception.
  An index with no UV to read also aborts it, through the array access.
- **`MergeTexturesInGridLayout` and `Copy`** walk the same grid with a running
  texture counter. Each texture is drawn into one cell rect of a render
  texture, which is then read back. `Copy` skips a null texture. Around the
  draw, `Copy` makes the target the active render target and restores the
  previous one afterwards.

The project has these modules:

- `Layout.dfy`:
  - the cell addressing, `Cell`;
  - the cell rects;
  - `Mathf.Repeat`;
  - the UV remap and its geometry: a remapped UV lies in its cell, distinct
    cells are disjoint, and an index past the cell count leaves the unit square.
- `MeshSpec.dfy`: the merge stated on values.
  - `CombineSpec` covers one mesh: either the first exception, or the
    flattened indices with the last-write-wins UVs.
  - `MergeSpec` covers all meshes, each merged with its global start index.
  - The lemmas state what a successful merge contains and when it fails.
- `MeshMerge.dfy`: the imperative merge.
  - A `Mesh` class holds the UV array, index buffer and submesh descriptor
    table.
  - The methods fill fresh `combinedIndices` / `combinedUVs` arrays in the
    source's nested loops, then store the result in the copy.
  - Each method is proved equal to `CombineSpec` / `MergeSpec` of the
    meshes as they were on entry.
- `Atlas.dfy`:
  - `Texture2D`, `RenderTexture` and a `Graphics` object holding
    `RenderTexture.active`.
  - A draw is recorded as a `Blit` event in the active render target.
    `ReadPixels` copies the active target's list of draws.
  - `Copy`, plus the grid walk as written and as corrected. Both walks are
    specified by `AtlasBlits(textures, grid, walk)`.
- `Preview.dfy`: the tile index of the editor's grid preview.
- `Wrappers.dfy` and `Seqs.dfy`: `Result`/`Option`, a sequence-of-results
  collector, flattening of sequences.

Floats are idealised as `real`. Integers are unbounded.

Points where the code's behaviour is easy to misread:

- The reference topology is that of submesh 0 of mesh 0. When mesh 0 has no
  submeshes, the code keeps its initial `Triangles`, and every later submesh
  is compared with that.
- The code raises no grid-overflow error and no invalid-resolution error.
  - A submesh with index `t >= x * y` gets a row `>= y`, and its UVs leave the
    unit square (`Layout.RemapOverflow`).
  - Textures past the last slot are never drawn (`Atlas.ExtraTexturesIgnored`).
- The merge has two ways to fail. A submesh of another topology raises
  `TopologyMismatch` (the exception of line 41). An index past the mesh's UV
  count, e.g. a mesh with no UV channel, raises `IndexOutOfRange`, because the
  array access of line 55 throws.

## Model

| member | source | states |
|---|---|---|
| Layout.Cell | Runtime/SubmeshMergerUtility.cs:43-44 | `(t % x, t / x)` has column below x and recomposes t as `row * x + column` |
| Layout.CellOfIndex | Runtime/SubmeshMergerUtility.cs:43-44 | the cell numbering is onto: `row * x + column` gets back that cell |
| Layout.CellInjective | Runtime/SubmeshMergerUtility.cs:43-44 | distinct counter values get distinct cells |
| Layout.CellInGrid | Runtime/SubmeshMergerUtility.cs:43-44 | t is below x * y exactly when its row is below y |
| Layout.Repeat | Runtime/SubmeshMergerUtility.cs:56 | `Mathf.Repeat(u, 1)` lies in [0, 1) and differs from u by an integer |
| Layout.RepeatInUnit | Runtime/SubmeshMergerUtility.cs:56 | UVs already in [0, 1) are not changed by the wrap |
| Layout.RepeatPeriodic | Runtime/SubmeshMergerUtility.cs:56 | shifting a UV by a whole number does not change the wrapped value |
| Layout.CellRect | Runtime/SubmeshMergerUtility.cs:43-46 | definition only: the cell of t is the rect at `(column * stepX, row * stepY)`, one step wide and high; its properties are `CellRectInUnit`, `RemapInCell` and `CellsDisjoint` |
| Layout.CellRectInUnit | Runtime/SubmeshMergerUtility.cs:20-46 | for t below x * y the cell rect lies inside the unit square |
| Layout.FloorCell | Runtime/SubmeshMergerUtility.cs:20-46 | every coordinate in [0, 1) lies in one of the n cells of width 1 / n along its axis |
| Layout.CellsCover | Runtime/SubmeshMergerUtility.cs:43-46 | every point of the unit square lies in the cell of some index below x * y; with `CellsDisjoint` and `CellRectInUnit`, the cells of the indices below x * y tile the unit square with no gap and no overlap |
| Layout.CellOffset | Runtime/SubmeshMergerUtility.cs:43-46 | definition only: `uvOffset`, the lower-left corner of the cell of t; used by `CopySubmesh` and `Remap` |
| Layout.Place | Runtime/SubmeshMergerUtility.cs:55-57 | definition only: a UV wrapped by `Repeat`, scaled by the step and moved by the offset; its meaning is stated by `RemapInCell` |
| Layout.Remap | Runtime/SubmeshMergerUtility.cs:43-57 | definition only: the UV a vertex of submesh t receives; `RemapInCell`, `RemapInUnitSquare`, `RemapOverflow` and `RemapSingleCell` state where it lies |
| Layout.RemapInCell | Runtime/SubmeshMergerUtility.cs:46-57 | whatever the authored UV, its remap lies in the cell rect of its submesh's counter value |
| Layout.CellsDisjoint | Runtime/SubmeshMergerUtility.cs:43-46 | no point lies in the cells of two distinct counter values |
| Layout.RemapInUnitSquare | Runtime/SubmeshMergerUtility.cs:43-57 | for t below x * y the remapped UV lies in the unit square |
| Layout.RemapOverflow | Runtime/SubmeshMergerUtility.cs:43-57 | there is no overflow check: for t at or beyond x * y the row is at least y and v is at least 1 |
| Layout.RemapSingleCell | Runtime/SubmeshMergerUtility.cs:55-57 | on a 1 x 1 grid UVs already in [0, 1) are left as they were |
| MeshSpec.FlattenLayout | Runtime/SubmeshMergerUtility.cs:48-52 | index j of submesh k sits in the combined buffer right after all indices of submeshes 0..k-1 |
| MeshSpec.FlattenLength | Runtime/SubmeshMergerUtility.cs:33-35 | for any submeshes, the combined buffer's length is the sum of the submesh index counts |
| MeshSpec.LastReferencing | Runtime/SubmeshMergerUtility.cs:49-57 | a result k names a submesh whose indices mention the vertex |
| MeshSpec.LastReferencingIsLast | Runtime/SubmeshMergerUtility.cs:49-57 | no later submesh mentions the vertex; None means no submesh does |
| MeshSpec.RemappedUVStep | Runtime/SubmeshMergerUtility.cs:54-57 | one more submesh changes exactly the UVs of the vertices it references (last write wins) |
| MeshSpec.CombinedUVsStep | Runtime/SubmeshMergerUtility.cs:49-58 | the UV buffer after submesh k is the buffer before it with k's vertices overwritten |
| MeshSpec.SubmeshError | Runtime/SubmeshMergerUtility.cs:40-55 | a submesh raises nothing exactly when it has the reference topology and a UV for every index; a submesh of another topology raises `TopologyMismatch` whatever its indices, so the topology test comes first |
| MeshSpec.FirstErrorNone | Runtime/SubmeshMergerUtility.cs:38-59 | a mesh raises nothing exactly when every submesh fits |
| MeshSpec.FirstErrorCause | Runtime/SubmeshMergerUtility.cs:38-59 | a topology error names a submesh of another topology; an index error names an index with no UV |
| MeshSpec.FirstErrorStep | Runtime/SubmeshMergerUtility.cs:38-59 | after a clean prefix, the next submesh's own error is the first one |
| MeshSpec.FirstErrorSticks | Runtime/SubmeshMergerUtility.cs:38-59 | once an exception is raised, later submeshes do not change it |
| MeshSpec.CombineFailsAt | Runtime/SubmeshMergerUtility.cs:38-59 | a mesh clean up to submesh k, where k raises e, fails with e |
| MeshSpec.CombineSpec | Runtime/SubmeshMergerUtility.cs:29-64 | definition only: one mesh's merge, either its first submesh error or its combination; `CombineSpecValue`, `FirstErrorCause` and `MergedMesh` state what it holds, and `MergeSubmeshes` is proved equal to it |
| MeshSpec.CombinedUpToStart | Runtime/SubmeshMergerUtility.cs:29-37 | before the submesh loop nothing is copied, no exception is raised, and every UV of the fresh buffer is (0, 0) |
| MeshSpec.CombineTopologyFails | Runtime/SubmeshMergerUtility.cs:38-41 | after a clean prefix, a submesh whose topology differs from the reference ends the mesh with `TopologyMismatch` |
| MeshSpec.CombineStep | Runtime/SubmeshMergerUtility.cs:42-58 | a submesh of the reference topology fits in the rest of the combined buffer; if all its indices have UVs the loop state grows by its indices and its UV overwrite, otherwise the mesh fails with `IndexOutOfRange` |
| MeshSpec.CombinedUpToEnd | Runtime/SubmeshMergerUtility.cs:37-64 | after the last submesh the copied indices fill the buffer, and indices, UVs and reference topology are the mesh's combination |
| MeshSpec.EnumerateAt | Runtime/SubmeshMergerUtility.cs:22-45 | counter value `GlobalIndex(m, sm)` names submesh sm of mesh m in the (mesh, submesh) enumeration |
| MeshSpec.GlobalIndexIncreasing | Runtime/SubmeshMergerUtility.cs:22-45 | the counter strictly increases along (mesh ascending, submesh ascending) and is not reset between meshes |
| MeshSpec.GlobalIndexStep | Runtime/SubmeshMergerUtility.cs:25-45 | mesh m + 1 starts where mesh m's submeshes end |
| MeshSpec.MergeSpec | Runtime/SubmeshMergerUtility.cs:21-66 | on success there is one combination per mesh; the meshes are merged in order with the running counter and the first failure aborts (`MergeSucceedsIff`, `MergeFailsAtFirstMesh`, `MergedMesh`) |
| MeshSpec.MergeSucceedsIff | Runtime/SubmeshMergerUtility.cs:25-65 | the merge succeeds exactly when every submesh of every mesh has the reference topology and a UV for each index |
| MeshSpec.MixedTopologyFails | Runtime/SubmeshMergerUtility.cs:40-41 | two submeshes of different topologies, in one mesh or in two, make the merge fail |
| MeshSpec.MergeFailsAtFirstMesh | Runtime/SubmeshMergerUtility.cs:25-65 | a failure reports the first error of the first mesh that raises one; all meshes before it are clean |
| MeshSpec.CombineSpecValue | Runtime/SubmeshMergerUtility.cs:29-64 | one merged mesh has the flattened indices, the reference topology, as many UVs as before, and the last-write-wins UVs |
| MeshSpec.MergedMesh | Runtime/SubmeshMergerUtility.cs:25-65 | on success mesh m gets its indices in submesh order (count = sum of counts) and the common topology; vertex v gets the remap into the cell of the last submesh naming it, or (0, 0) |
| MeshSpec.MergedMeshIsCombination | Runtime/SubmeshMergerUtility.cs:25-65 | on success there is one combination per mesh, and combination m is that mesh's merge starting from its global counter value |
| MeshSpec.MergedUpToStart | Runtime/SubmeshMergerUtility.cs:21-25 | before the mesh loop the counter is 0, the topology is `Triangles`, and no mesh is merged |
| MeshSpec.MergeStep | Runtime/SubmeshMergerUtility.cs:25-65 | merging mesh m after m clean meshes either fails the whole merge with its error, or extends the state by its combination with the counter moved past its submeshes |
| MeshSpec.MergedUpToEnd | Runtime/SubmeshMergerUtility.cs:25-66 | after the last mesh the collected combinations are the merge's result |
| MeshMerge.Mesh.Instantiate | Runtime/SubmeshMergerUtility.cs:27 | the copy has the same UVs, index buffer and submesh table as the source |
| MeshMerge.DescriptorIndices | Runtime/SubmeshMergerUtility.cs:48 | definition only: `GetIndices(sm, applyBaseVertex: true)`, the descriptor's slice of the index buffer with its base vertex added |
| MeshMerge.Mesh.Data | Runtime/SubmeshMergerUtility.cs:29-48 | definition only: what the merge reads of a mesh (`uv`, `subMeshCount`, `GetTopology`, `GetIndices`); `HoldsSingleSubmesh` states what it reads back after `SetCombined` |
| MeshMerge.Mesh.SetCombined | Runtime/SubmeshMergerUtility.cs:60-64 | afterwards the mesh holds the merged UVs and indices, and one descriptor (start 0, count = all indices, common topology) |
| MeshMerge.HoldsSingleSubmesh | Runtime/SubmeshMergerUtility.cs:62-64 | such a mesh reads back as exactly one submesh, with all merged indices |
| MeshMerge.CountIndices | Runtime/SubmeshMergerUtility.cs:33-34 | the counting loop yields the length of the flattened index list |
| MeshMerge.CopySubmesh | Runtime/SubmeshMergerUtility.cs:48-58 | leaves the buffer before i0 and after i0 + n alone and appends the submesh's n indices at i0; the UVs of the vertices it names become their remap into cell t and all others are kept; fails exactly when some index has no UV |
| MeshMerge.MergeSubmeshes | Runtime/SubmeshMergerUtility.cs:29-59 | the nested loops compute `CombineSpec` of the mesh; on success the counter has advanced by the submesh count |
| MeshMerge.PrepareMesh | Runtime/SubmeshMergerUtility.cs:26-65 | a fresh copy; the result is `CombineSpec` of the source mesh from counter t0; on success the copy holds it and the counter has advanced by its submesh count |
| MeshMerge.PrepareNext | Runtime/SubmeshMergerUtility.cs:25-65 | one pass of the mesh loop: a failure is the merge's failure; on success the loop state and the list of copies each grow by mesh m's combination, held by a fresh copy |
| MeshMerge.PrepareMeshes | Runtime/SubmeshMergerUtility.cs:21-66 | fails with `MergeSpec`'s error, or yields one fresh copy per source mesh holding `MergeSpec`'s combination for it |
| MeshMerge.MergeMeshesAndSubmeshes | Runtime/SubmeshMergerUtility.cs:18-79 | as PrepareMeshes; one source mesh returns its copy, several return all copies for combining; no source mesh is modified |
| Atlas.Texture2D.constructor | Runtime/SubmeshMergerUtility.cs:84 | a new texture of the requested size with nothing read into it yet |
| Atlas.RenderTexture.constructor | Runtime/SubmeshMergerUtility.cs:86 | a new render target of the requested size, with no quads drawn, update count 0, not released |
| Atlas.Texture2D.ReadPixels | Runtime/SubmeshMergerUtility.cs:100-101 | the texture receives what the active render target holds |
| Atlas.RenderTexture.IncrementUpdateCount | Runtime/SubmeshMergerUtility.cs:125 | the update count goes up by one, nothing else changes |
| Atlas.RenderTexture.Release | Runtime/SubmeshMergerUtility.cs:104 | the target is released; its recorded draws are kept |
| Atlas.Graphics.DrawNow | Runtime/SubmeshMergerUtility.cs:119-124 | the draw lands in the active render target, appended after its earlier draws |
| Atlas.Copy | Runtime/SubmeshMergerUtility.cs:110-129 | a null source changes nothing; otherwise the target gets one quad (source, source rect, target rect) and one more update, and the previously active target is restored |
| Atlas.SlotCount | Runtime/SubmeshMergerUtility.cs:90-91 | definition only: the number of slots the nested loops visit, x * y or none when a bound is below one; `MergeTexturesInGridLayout` is proved to draw exactly the textures below it |
| Atlas.SlotCell | Runtime/SubmeshMergerUtility.cs:90-94 | definition only: the cell of slot i, `(i % y, i / y)` as written and `(i % x, i / x)` row-major; `SlotsMatchCellsIff` compares the two |
| Atlas.SlotRect | Runtime/SubmeshMergerUtility.cs:94 | definition only: `destRect` of slot i; `SlotRectInjective` and `RowMajorMatchesMesh` state its properties |
| Atlas.Placed | Runtime/SubmeshMergerUtility.cs:93-95 | at most n quads for the first n slots; that there is one per non-null slot, in slot order, is stated by `PlacedMember`, `PlacedInSlotOrder` and `SlotRectInjective` |
| Atlas.AtlasBlits | Runtime/SubmeshMergerUtility.cs:88-97 | definition only: the quads of the whole walk, for the textures below min(Count, x * y); its properties are `PlacedMember`, `PlacedInSlotOrder`, `NullTextureDrawsNothing` and `ExtraTexturesIgnored` |
| Atlas.PlacedMember | Runtime/SubmeshMergerUtility.cs:93-95 | a quad is drawn exactly when it samples a non-null texture i whole and covers slot i's rect |
| Atlas.PlacedInSlotOrder | Runtime/SubmeshMergerUtility.cs:88-97 | consecutive quads come from increasing slots |
| Atlas.SlotRectInjective | Runtime/SubmeshMergerUtility.cs:94 | distinct slots get distinct destination rects |
| Atlas.NullTextureDrawsNothing | Runtime/SubmeshMergerUtility.cs:93-95 | a null texture uses up its slot (the counter still advances) but nothing is drawn into that slot's rect |
| Atlas.ExtraTexturesIgnored | Runtime/SubmeshMergerUtility.cs:88-97 | textures past slot x * y have no effect on the atlas |
| Atlas.MergeTexturesInGridLayout | Runtime/SubmeshMergerUtility.cs:82-107 | the read-back texture (of the requested size) holds the quads of `AtlasBlits(textures, grid, AsWritten)`; no render target is active afterwards |
| Atlas.SlotsMatchCellsIff | Runtime/SubmeshMergerUtility.cs:90-94 | as written, every one of the x * y visited slots gets the rect of the mesh cell with the same index exactly when x == y |
| Atlas.SlotCellAtMin | Runtime/SubmeshMergerUtility.cs:90-94 | on a non-square grid, slot min(x, y) is one the walk visits, and it gets a different column under the two numberings |
| Atlas.MinBelowCellCount | Runtime/SubmeshMergerUtility.cs:90-91 | on a non-square grid min(x, y) is below x * y |
| Atlas.AsWrittenMisplacesSecondTexture | Runtime/SubmeshMergerUtility.cs:90-94 | on x = 2, y = 1 the second texture is drawn at (0, 1), outside the atlas, while submesh 1's UVs lie in (0.5, 0) |
| Atlas.MergeTexturesRowMajor | Runtime/SubmeshMergerUtility.cs:88-97 | the corrected walk's texture holds the quads of `AtlasBlits(textures, grid, RowMajor)` |
| Atlas.RowMajorMatchesMesh | Runtime/SubmeshMergerUtility.cs:43-46 | row-major, texture k is drawn into the cell of submesh k, where that submesh's remapped UVs lie |
| Preview.PreviewTile | Editor/SubmeshMergerWindow.cs:273 | definition only: the index shown in display row r, column c; `PreviewShowsCell` and `PreviewShowsEachIndexOnce` state its properties |
| Preview.PreviewShowsCell | Editor/SubmeshMergerWindow.cs:273 | display row r, column c shows the index of row-major cell (c, rows - 1 - r): the preview is bottom-up |
| Preview.PreviewShowsEachIndexOnce | Editor/SubmeshMergerWindow.cs:266-273 | every index below x * y is shown in exactly one tile |

## Left out

- `CombineMeshes` and the `localToWorldMatrix` transforms (lines 69-76) are not modelled. This is a foreign call doing float matrix work. With several meshes the model returns the prepared copies that would be handed to it (`Merged.Combined`).
- Unity mesh storage is not modelled: vertices, normals, bounds, and the `SetSubMeshes` update flags. A mesh is its UV array, its index buffer and its submesh table. `GetIndices(sm, true)` reads a descriptor's range with the base vertex added.
- The GPU work is not modelled: the material and shader setup, the quad mesh, pixel formats, and `Apply`. A draw is recorded as a `Blit` event, and `ReadPixels` copies the recorded events.
- The lazily created static material and quad mesh (lines 14-15, 140-167) and the shader property IDs are resource plumbing and are left out.
- IEEE float rounding in `1f / x`, the products, the sums and `Mathf.Repeat` is not modelled; values are exact reals.
- The 32-bit widths are not modelled. `combinedIndexCount` is a `uint` cast to `int`, and `t` is an `int` counter. Their wrap-around past 2^31 does not happen in the model.
- MeshMerge.MergeMeshesAndSubmeshes: requires both grid dimensions to be at least one. The editor's column and row fields (Editor/SubmeshMergerWindow.cs:69-70) are unclamped integers that the user is expected to set to 1 or more, so smaller dimensions are not modelled. What the source does with them:
  - With x = 0 it throws a `DivideByZeroException` at line 43 on the first submesh. When no mesh has a submesh, line 43 is never reached and the merge goes through.
  - With y = 0, `uvStep.y` is an infinite float and the remapped v coordinates become infinite or NaN.
  - With a negative x, `t % x` keeps the sign of t, so the column stays in [0, -x), and the truncating `t / x` gives a row of 0 or below. A negative dimension also makes its step, `1f / x` or `1f / y`, negative.
- MeshMerge.MergeMeshesAndSubmeshes: takes non-null meshes for the source's `sharedMesh`. A null mesh filter (the source dereferences it and throws) or a null `sharedMesh` (which `Object.Instantiate` rejects) is not modelled.
- Atlas.Copy: Unity's `!source` test is also true for a destroyed texture; the model tests for null only. The model's parameter type is `Texture2D`, the only kind its caller passes.
- Atlas.MergeTexturesInGridLayout: texture and render-texture creation with a non-positive resolution is Unity's behaviour and is not modelled; the size is only recorded.
- `Editor/SubmeshMergerWindow.cs` is not modelled beyond the preview tile index. The rest of it is UI, asset discovery, JPG encoding, file and prefab creation, and logging.

## Findings

| source | as written | input that shows it | evidently intended | confidence | as-written member | corrected member |
|---|---|---|---|---|---|---|
| Runtime/SubmeshMergerUtility.cs:90-91 | the outer loop runs `r < gridDimensions.x` and the inner `c < gridDimensions.y`, so texture i goes to `(i % y, i / y)` scaled by `(1/x, 1/y)` | x = 2, y = 1 with two textures: the second is drawn at (0, 1, 0.5, 1), above the atlas, while submesh 1's UVs are remapped into (0.5, 0, 0.5, 1) | rows `r < y` outside and columns `c < x` inside, so texture i fills mesh cell `(i % x, i / x)`; the two agree only on square grids (`Atlas.SlotsMatchCellsIff`), and the editor preview numbers tiles the same row-major way (`Preview.PreviewShowsCell`) | not executed | Atlas.AsWrittenMisplacesSecondTexture | Atlas.MergeTexturesRowMajor |
