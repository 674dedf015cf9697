/**
 * The mesh merge as the source performs it: instantiate a copy of each source
 * mesh, fill fresh index and UV arrays in nested loops driven by the mesh-wide
 * index counter and the global submesh counter, then overwrite the copy's UVs,
 * submesh table and index buffer.
 */
module MeshMerge {
  import opened Wrappers
  import opened Seqs
  import opened Layout
  import opened MeshSpec

  /** Unity's `SubMeshDescriptor`: a range of the index buffer read as one topology. */
  datatype SubMeshDescriptor = SubMeshDescriptor(indexStart: nat, indexCount: nat, topology: Topology, baseVertex: nat)

  /** The slice of the index buffer a descriptor covers, with its base vertex added. */
  function DescriptorIndices(indexBuffer: seq<nat>, d: SubMeshDescriptor): seq<nat>
    requires d.indexStart + d.indexCount <= |indexBuffer|
  {
    seq(d.indexCount, j requires 0 <= j < d.indexCount => indexBuffer[d.indexStart + j] + d.baseVertex)
  }

  /** What the merge reads of a mesh with these fields. */
  function DataOf(uv: seq<UV>, indexBuffer: seq<nat>, descriptors: seq<SubMeshDescriptor>): MeshData
    requires forall sm | 0 <= sm < |descriptors| :: descriptors[sm].indexStart + descriptors[sm].indexCount <= |indexBuffer|
  {
    MeshData(uv, seq(|descriptors|, sm requires 0 <= sm < |descriptors| =>
                       Submesh(descriptors[sm].topology, DescriptorIndices(indexBuffer, descriptors[sm]))))
  }

  /** A mesh: per-vertex UVs, one index buffer, and the submesh table over it. */
  class Mesh {
    var uv: seq<UV>
    var indexBuffer: seq<nat>
    var descriptors: seq<SubMeshDescriptor>

    /** Every submesh range lies inside the index buffer. */
    ghost predicate Valid()
      reads this
    {
      forall sm | 0 <= sm < |descriptors| :: descriptors[sm].indexStart + descriptors[sm].indexCount <= |indexBuffer|
    }

    /** What `meshMod.uv`, `subMeshCount`, `GetTopology(sm)` and `GetIndices(sm, true)` read. */
    function Data(): MeshData
      reads this
      requires Valid()
    {
      DataOf(uv, indexBuffer, descriptors)
    }

    /** `Object.Instantiate`: an independent copy with the same contents. */
    constructor Instantiate(source: Mesh)
      requires source.Valid()
      ensures Valid()
      ensures uv == source.uv && indexBuffer == source.indexBuffer && descriptors == source.descriptors
      ensures Data() == source.Data()
    {
      uv := source.uv;
      indexBuffer := source.indexBuffer;
      descriptors := source.descriptors;
    }

    /**
     * Lines 60-64: `uv = combinedUVs`, then one submesh descriptor over all
     * combined indices, then those indices as submesh 0.
     */
    method SetCombined(c: Combination)
      modifies this
      ensures Holds(c)
    {
      uv := c.uv;
      descriptors := [SubMeshDescriptor(0, |c.indices|, c.topology, 0)];
      indexBuffer := c.indices;
    }

    /** The mesh holds one merged submesh: these UVs, these indices, one descriptor over all of them. */
    ghost predicate Holds(c: Combination)
      reads this
    {
      uv == c.uv && indexBuffer == c.indices &&
      descriptors == [SubMeshDescriptor(0, |c.indices|, c.topology, 0)]
    }
  }

  /** A mesh holding a merge result has exactly one submesh, and it reads back all merged indices. */
  lemma HoldsSingleSubmesh(mesh: Mesh, c: Combination)
    requires mesh.Holds(c)
    ensures mesh.Valid()
    ensures mesh.Data() == MeshData(c.uv, [Submesh(c.topology, c.indices)])
  {
    assert DescriptorIndices(mesh.indexBuffer, mesh.descriptors[0]) == c.indices;
  }

  /** Mesh m holds combination m, for every m. */
  ghost predicate AllHold(meshes: seq<Mesh>, cs: seq<Combination>)
    reads meshes
  {
    |meshes| == |cs| && forall m | 0 <= m < |meshes| :: meshes[m].Holds(cs[m])
  }

  /** What the merge reads of each source mesh, in list order. */
  ghost function Snapshot(meshes: seq<Mesh>): (r: seq<MeshData>)
    reads meshes
    requires forall m | 0 <= m < |meshes| :: meshes[m].Valid()
    ensures |r| == |meshes|
  {
    seq(|meshes|, m requires 0 <= m < |meshes| && meshes[m].Valid() reads meshes => meshes[m].Data())
  }

  /**
   * The meshes handed back: the prepared copy when there is one source mesh,
   * otherwise the prepared copies that `CombineMeshes` joins into one mesh.
   */
  datatype Merged = Single(mesh: Mesh) | Combined(parts: seq<Mesh>)

  /**
   * Lines 18-79: copy every source mesh, merge its submeshes into one with
   * the shared counter and topology, and store the result in the copy; one
   * source mesh gives its copy back. The source meshes are not modified (the
   * method modifies no existing object).
   */
  method MergeMeshesAndSubmeshes(meshFilters: seq<Mesh>, uvGridDimensions: Grid)
    returns (r: Result<Merged, MergeError>)
    requires uvGridDimensions.Valid()
    requires forall m | 0 <= m < |meshFilters| :: meshFilters[m].Valid()
    ensures r.Failure? ==> MergeSpec(Snapshot(meshFilters), uvGridDimensions) == Failure(r.error)
    ensures r.Success? ==> MergeSpec(Snapshot(meshFilters), uvGridDimensions).Success?
    ensures r.Success? ==> (r.value.Single? <==> |meshFilters| == 1)
    ensures r.Success? && r.value.Single? ==>
              fresh(r.value.mesh) && r.value.mesh.Holds(MergeSpec(Snapshot(meshFilters), uvGridDimensions).value[0])
    ensures r.Success? && r.value.Combined? ==>
              && |r.value.parts| == |meshFilters|
              && (forall m | 0 <= m < |meshFilters| :: fresh(r.value.parts[m]))
              && AllHold(r.value.parts, MergeSpec(Snapshot(meshFilters), uvGridDimensions).value)
  {
    var prepared := PrepareMeshes(meshFilters, uvGridDimensions);
    if prepared.Failure? {
      return Failure(prepared.error);
    }
    var meshMods := prepared.value;
    if |meshFilters| == 1 {
      return Success(Single(meshMods[0]));
    }
    r := Success(Combined(meshMods));
  }

  /** Lines 21-66: the prepared copies, one per source mesh, or the first exception. */
  method PrepareMeshes(meshFilters: seq<Mesh>, uvGridDimensions: Grid)
    returns (r: Result<seq<Mesh>, MergeError>)
    requires uvGridDimensions.Valid()
    requires forall m | 0 <= m < |meshFilters| :: meshFilters[m].Valid()
    ensures r.Failure? ==> MergeSpec(Snapshot(meshFilters), uvGridDimensions) == Failure(r.error)
    ensures r.Success? ==>
              && MergeSpec(Snapshot(meshFilters), uvGridDimensions).Success?
              && |r.value| == |meshFilters|
              && (forall m | 0 <= m < |meshFilters| :: fresh(r.value[m]))
              && AllHold(r.value, MergeSpec(Snapshot(meshFilters), uvGridDimensions).value)
  {
    ghost var snapshot := Snapshot(meshFilters);
    ghost var done: seq<Combination> := [];
    var topology := Triangles;
    var t := 0;
    var meshMods: seq<Mesh> := [];
    MergedUpToStart(snapshot, uvGridDimensions);
    for m := 0 to |meshFilters|
      invariant MergedUpTo(snapshot, uvGridDimensions, m, t, topology, done)
      invariant AllHold(meshMods, done)
      invariant forall k | 0 <= k < |meshMods| :: fresh(meshMods[k])
    {
      var c, t', meshMod := PrepareNext(meshFilters, snapshot, uvGridDimensions, m, t, topology, meshMods, done);
      if c.Failure? {
        return Failure(c.error);
      }
      meshMods := meshMods + [meshMod];
      t, topology := t', c.value.topology;
      done := done + [c.value];
    }
    MergedUpToEnd(snapshot, uvGridDimensions, t, topology, done);
    r := Success(meshMods);
  }

  /**
   * One pass of the loop over the meshes (lines 26-65 for mesh m): prepare
   * the copy of mesh m with the carried counter and topology, and append it.
   */
  method PrepareNext(meshFilters: seq<Mesh>, ghost snapshot: seq<MeshData>, grid: Grid, m: nat, t: nat, topology: Topology,
                     meshMods: seq<Mesh>, ghost done: seq<Combination>)
    returns (r: Result<Combination, MergeError>, t': nat, meshMod: Mesh)
    requires grid.Valid() && m < |meshFilters| == |snapshot|
    requires meshFilters[m].Valid() && meshFilters[m].Data() == snapshot[m]
    requires MergedUpTo(snapshot, grid, m, t, topology, done) && AllHold(meshMods, done)
    ensures r.Failure? ==> MergeSpec(snapshot, grid) == Failure(r.error)
    ensures r.Success? ==>
              && MergedUpTo(snapshot, grid, m + 1, t', r.value.topology, done + [r.value])
              && AllHold(meshMods + [meshMod], done + [r.value])
    ensures fresh(meshMod)
  {
    meshMod, r, t' := PrepareMesh(meshFilters[m], snapshot[m], grid, t, topology, m == 0);
    MergeStep(snapshot, grid, m, t, topology, done, r, t');
  }

  /**
   * Lines 26-65, the body of the loop over the meshes: copy the source mesh,
   * merge the copy's submeshes, and on success store the result in the copy.
   */
  method PrepareMesh(source: Mesh, ghost data: MeshData, grid: Grid, t0: nat, topology0: Topology, isFirstMesh: bool)
    returns (meshMod: Mesh, r: Result<Combination, MergeError>, t: nat)
    requires source.Valid() && source.Data() == data && grid.Valid()
    ensures fresh(meshMod)
    ensures r == CombineSpec(data, grid, t0, ReferenceFor(data.submeshes, isFirstMesh, topology0))
    ensures r.Success? ==> meshMod.Holds(r.value) && t == t0 + |data.submeshes|
  {
    meshMod := new Mesh.Instantiate(source);
    r, t := MergeSubmeshes(meshMod.uv, meshMod.Data().submeshes, grid, t0, topology0, isFirstMesh);
    if r.Success? {
      meshMod.SetCombined(r.value);
    }
  }

  /**
   * Lines 29-59 for one mesh, given its UVs and its submeshes: sum the index
   * counts, then walk the submeshes, checking the topology and taking the next
   * cell from the global counter (t0 on entry, t on exit) before copying the
   * submesh's indices. topology0 is the topology carried from earlier meshes.
   */
  method MergeSubmeshes(originalUVs: seq<UV>, subs: seq<Submesh>, grid: Grid, t0: nat, topology0: Topology, isFirstMesh: bool)
    returns (r: Result<Combination, MergeError>, t: nat)
    requires grid.Valid()
    ensures r == CombineSpec(MeshData(originalUVs, subs), grid, t0, ReferenceFor(subs, isFirstMesh, topology0))
    ensures r.Success? ==> t == t0 + |subs|
  {
    ghost var mesh := MeshData(originalUVs, subs);
    ghost var reference := ReferenceFor(subs, isFirstMesh, topology0);
    var combinedUVs := new UV[|originalUVs|](_ => Origin);
    var submeshCount := |subs|;
    var combinedIndexCount := CountIndices(subs);
    var combinedIndices := new nat[combinedIndexCount];

    CombinedUpToStart(mesh, grid, t0, reference, combinedUVs[..]);
    var topology := topology0;
    t := t0;
    var i: nat := 0;
    for sm := 0 to submeshCount
      invariant t == t0 + sm
      invariant topology == if sm == 0 then topology0 else reference
      invariant i <= combinedIndexCount
      invariant CombinedUpTo(mesh, grid, t0, reference, sm, combinedIndices[..i], combinedUVs[..])
    {
      if isFirstMesh && sm == 0 {
        topology := subs[sm].topology;
      } else if subs[sm].topology != topology {
        CombineTopologyFails(mesh, grid, t0, reference, sm, combinedIndices[..i], combinedUVs[..]);
        return Failure(TopologyMismatch), t;
      }
      var cell := Cell(t, grid);
      t := t + 1;
      var uvOffset := UV(Edge(cell.column, grid.StepU()), Edge(cell.row, grid.StepV()));

      var submeshIndices := subs[sm].indices;
      CombineStep(mesh, grid, t0, reference, sm, combinedIndices[..i], combinedUVs[..]);
      var ok := CopySubmesh(submeshIndices, originalUVs, t0 + sm, uvOffset, grid, combinedIndices, i, combinedUVs);
      if !ok {
        return Failure(IndexOutOfRange), t;
      }
      i := i + |submeshIndices|;
    }
    CombinedUpToEnd(mesh, grid, t0, reference, combinedIndices[..i], combinedUVs[..]);
    assert combinedIndices[..] == combinedIndices[..i];
    r := Success(Combination(combinedIndices[..], combinedUVs[..], topology));
  }

  /** Line 34: the number of indices over all submeshes. */
  method CountIndices(subs: seq<Submesh>) returns (n: nat)
    ensures n == |Flatten(subs)|
  {
    ghost var lists := IndexLists(subs);
    n := 0;
    for sm := 0 to |subs|
      invariant n == TotalLength(lists[..sm])
    {
      ConcatStep(lists, sm);
      n := n + |subs[sm].indices|;
    }
    assert lists[..|subs|] == lists;
  }

  /**
   * Lines 48-58 for one submesh with global index t: copy its indices to
   * combinedIndices from position i0 on and write, for each vertex it names,
   * the wrapped original UV scaled into the cell at uvOffset. Fails, as the
   * source's array access does, on the first index with no original UV.
   */
  method CopySubmesh(submeshIndices: seq<nat>, originalUVs: seq<UV>, ghost t: nat, uvOffset: UV, grid: Grid,
                     combinedIndices: array<nat>, i0: nat, combinedUVs: array<UV>)
    returns (ok: bool)
    requires grid.Valid() && uvOffset == CellOffset(t, grid)
    requires i0 + |submeshIndices| <= combinedIndices.Length
    requires combinedUVs.Length == |originalUVs|
    modifies combinedIndices, combinedUVs
    ensures combinedIndices[..i0] == old(combinedIndices[..i0])
    ensures combinedIndices[i0 + |submeshIndices|..] == old(combinedIndices[i0 + |submeshIndices|..])
    ensures ok <==> forall j | 0 <= j < |submeshIndices| :: submeshIndices[j] < |originalUVs|
    ensures ok ==> combinedIndices[..i0 + |submeshIndices|] == old(combinedIndices[..i0]) + submeshIndices
    ensures ok ==> combinedUVs[..] == Overwrite(old(combinedUVs[..]), originalUVs, submeshIndices, t, grid)
  {
    var i := i0;
    for si := 0 to |submeshIndices|
      invariant i == i0 + si
      invariant combinedIndices[..i0] == old(combinedIndices[..i0])
      invariant combinedIndices[i0 + |submeshIndices|..] == old(combinedIndices[i0 + |submeshIndices|..])
      invariant combinedIndices[i0..i] == submeshIndices[..si]
      invariant forall j | 0 <= j < si :: submeshIndices[j] < |originalUVs|
      invariant forall v | 0 <= v < combinedUVs.Length ::
                  combinedUVs[v] == if v in submeshIndices[..si] then Remap(originalUVs[v], t, grid) else old(combinedUVs[v])
    {
      var index := submeshIndices[si];
      assert submeshIndices[..si + 1] == submeshIndices[..si] + [index];
      combinedIndices[i] := index;
      i := i + 1;
      if index >= |originalUVs| {
        return false;
      }
      combinedUVs[index] := Place(originalUVs[index], uvOffset, grid);
    }
    assert submeshIndices[..|submeshIndices|] == submeshIndices;
    assert combinedIndices[..i] == combinedIndices[..i0] + combinedIndices[i0..i];
    ok := true;
  }
}
