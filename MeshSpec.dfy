/**
 * What merging meshes and submeshes computes, stated on values: one combined
 * index list and one remapped UV list per mesh, or the first error met in the
 * global (mesh ascending, submesh ascending) enumeration.
 */
module MeshSpec {
  import opened Wrappers
  import opened Seqs
  import opened Layout

  /** Unity's `MeshTopology`. */
  datatype Topology = Triangles | Quads | Lines | LineStrip | Points

  /** One submesh as the merge reads it: its topology and its indices with the base vertex applied. */
  datatype Submesh = Submesh(topology: Topology, indices: seq<nat>)

  /** The parts of a source mesh the merge reads. */
  datatype MeshData = MeshData(uv: seq<UV>, submeshes: seq<Submesh>)

  /**
   * The exceptions that abort a merge: mixed topologies, and an index with no
   * UV to read (the mesh has fewer UVs than the index needs, e.g. no UV channel).
   */
  datatype MergeError = TopologyMismatch | IndexOutOfRange

  /** What one mesh becomes: one index list, one UV list, one topology. */
  datatype Combination = Combination(indices: seq<nat>, uv: seq<UV>, topology: Topology)

  // ---------------------------------------------------------------- indices

  function IndexLists(subs: seq<Submesh>): seq<seq<nat>>
  {
    seq(|subs|, k requires 0 <= k < |subs| => subs[k].indices)
  }

  /** The combined index buffer of one mesh: its submeshes' indices in submesh order. */
  function Flatten(subs: seq<Submesh>): seq<nat> {
    Concat(IndexLists(subs))
  }

  /** The combined buffer holds exactly the sum of the submesh index counts, whatever the submeshes. */
  lemma FlattenLength(subs: seq<Submesh>)
    ensures |Flatten(subs)| == TotalLength(IndexLists(subs))
  {
  }

  /**
   * The combined buffer holds exactly the sum of the submesh index counts, and
   * index j of submesh k sits right after the indices of submeshes 0 .. k-1.
   */
  lemma FlattenLayout(subs: seq<Submesh>, k: nat, j: nat)
    requires k < |subs| && j < |subs[k].indices|
    ensures |Flatten(subs)| == TotalLength(IndexLists(subs))
    ensures TotalLength(IndexLists(subs)[..k]) + j < |Flatten(subs)|
    ensures Flatten(subs)[TotalLength(IndexLists(subs)[..k]) + j] == subs[k].indices[j]
  {
    ConcatAt(IndexLists(subs), k, j);
  }

  // ---------------------------------------------------------------- UVs

  /** The last submesh (in submesh order) whose indices mention vertex v. */
  function LastReferencing(subs: seq<Submesh>, v: nat): (r: Option<nat>)
    ensures r.Some? ==> r.value < |subs| && v in subs[r.value].indices
  {
    if |subs| == 0 then None
    else if v in subs[|subs| - 1].indices then Some(|subs| - 1)
    else LastReferencing(subs[..|subs| - 1], v)
  }

  /** No later submesh mentions the vertex; with None, no submesh does. */
  lemma {:induction false} LastReferencingIsLast(subs: seq<Submesh>, v: nat)
    ensures LastReferencing(subs, v).None? ==> forall k | 0 <= k < |subs| :: v !in subs[k].indices
    ensures LastReferencing(subs, v).Some? ==>
              forall k | LastReferencing(subs, v).value < k < |subs| :: v !in subs[k].indices
  {
    if |subs| > 0 && v !in subs[|subs| - 1].indices {
      var p := subs[..|subs| - 1];
      LastReferencingIsLast(p, v);
      assert forall k | 0 <= k < |p| :: p[k] == subs[k];
    }
  }

  /**
   * The UV vertex v ends with (last write wins): the remap of its original UV
   * into the cell of the last submesh that references it, or (0, 0) for a
   * vertex no submesh references.
   */
  function RemappedUV(uv: seq<UV>, subs: seq<Submesh>, t0: nat, grid: Grid, v: nat): UV
    requires grid.Valid() && v < |uv|
  {
    match LastReferencing(subs, v)
    case None => Origin
    case Some(k) => Remap(uv[v], t0 + k, grid)
  }

  /** One more submesh overwrites exactly the vertices it references. */
  lemma RemappedUVStep(uv: seq<UV>, subs: seq<Submesh>, k: nat, t0: nat, grid: Grid, v: nat)
    requires grid.Valid() && v < |uv| && k < |subs|
    ensures RemappedUV(uv, subs[..k + 1], t0, grid, v) ==
            if v in subs[k].indices then Remap(uv[v], t0 + k, grid) else RemappedUV(uv, subs[..k], t0, grid, v)
  {
    assert subs[..k + 1][..k] == subs[..k];
  }

  function CombinedUVs(uv: seq<UV>, subs: seq<Submesh>, t0: nat, grid: Grid): (r: seq<UV>)
    requires grid.Valid()
    ensures |r| == |uv|
  {
    seq(|uv|, v requires 0 <= v < |uv| => RemappedUV(uv, subs, t0, grid, v))
  }

  /** The UV buffer after one submesh with global index t wrote the vertices it references. */
  function Overwrite(previous: seq<UV>, uv: seq<UV>, indices: seq<nat>, t: nat, grid: Grid): (r: seq<UV>)
    requires grid.Valid() && |previous| == |uv|
    ensures |r| == |uv|
  {
    seq(|uv|, v requires 0 <= v < |uv| => if v in indices then Remap(uv[v], t, grid) else previous[v])
  }

  /** Merging one more submesh is one more Overwrite (last write wins). */
  lemma CombinedUVsStep(uv: seq<UV>, subs: seq<Submesh>, k: nat, t0: nat, grid: Grid)
    requires grid.Valid() && k < |subs|
    ensures CombinedUVs(uv, subs[..k + 1], t0, grid) ==
            Overwrite(CombinedUVs(uv, subs[..k], t0, grid), uv, subs[k].indices, t0 + k, grid)
  {
    forall v | 0 <= v < |uv| {
      RemappedUVStep(uv, subs, k, t0, grid, v);
    }
  }

  // ---------------------------------------------------------------- errors

  /** A submesh the merge accepts: the common topology, and a UV for every index. */
  predicate SubmeshFits(sub: Submesh, uvCount: nat, reference: Topology) {
    sub.topology == reference && forall j | 0 <= j < |sub.indices| :: sub.indices[j] < uvCount
  }

  /** The exception one submesh raises: the topology test comes before any index is read. */
  function SubmeshError(sub: Submesh, uvCount: nat, reference: Topology): (e: Option<MergeError>)
    ensures e.None? <==> SubmeshFits(sub, uvCount, reference)
    ensures sub.topology != reference ==> e == Some(TopologyMismatch)
  {
    if sub.topology != reference then Some(TopologyMismatch)
    else if exists j | 0 <= j < |sub.indices| :: sub.indices[j] >= uvCount then Some(IndexOutOfRange)
    else None
  }

  /** The first exception met walking the submeshes in order. */
  function FirstError(subs: seq<Submesh>, uvCount: nat, reference: Topology): Option<MergeError> {
    if |subs| == 0 then None
    else
      match FirstError(subs[..|subs| - 1], uvCount, reference)
      case Some(e) => Some(e)
      case None => SubmeshError(subs[|subs| - 1], uvCount, reference)
  }

  /** A mesh raises nothing exactly when every submesh fits. */
  lemma {:induction false} FirstErrorNone(subs: seq<Submesh>, uvCount: nat, reference: Topology)
    ensures FirstError(subs, uvCount, reference).None? <==>
            forall k | 0 <= k < |subs| :: SubmeshFits(subs[k], uvCount, reference)
  {
    if |subs| > 0 {
      var p := subs[..|subs| - 1];
      FirstErrorNone(p, uvCount, reference);
      assert forall k | 0 <= k < |p| :: p[k] == subs[k];
    }
  }

  /** Each error names a submesh that causes it. */
  lemma {:induction false} FirstErrorCause(subs: seq<Submesh>, uvCount: nat, reference: Topology)
    ensures FirstError(subs, uvCount, reference) == Some(TopologyMismatch) ==>
              exists k | 0 <= k < |subs| :: subs[k].topology != reference
    ensures FirstError(subs, uvCount, reference) == Some(IndexOutOfRange) ==>
              exists k, j | 0 <= k < |subs| && 0 <= j < |subs[k].indices| :: subs[k].indices[j] >= uvCount
  {
    if |subs| > 0 {
      var n := |subs| - 1;
      var p := subs[..n];
      FirstErrorCause(p, uvCount, reference);
      assert forall k | 0 <= k < |p| :: p[k] == subs[k];
      if FirstError(p, uvCount, reference).None? && FirstError(subs, uvCount, reference) == Some(IndexOutOfRange) {
        var j :| 0 <= j < |subs[n].indices| && subs[n].indices[j] >= uvCount;
        assert subs[n].indices[j] >= uvCount;
      }
    }
  }

  /** After a prefix that raised nothing, the next submesh's own exception is the first one. */
  lemma FirstErrorStep(subs: seq<Submesh>, k: nat, uvCount: nat, reference: Topology)
    requires k < |subs| && FirstError(subs[..k], uvCount, reference).None?
    ensures FirstError(subs[..k + 1], uvCount, reference) == SubmeshError(subs[k], uvCount, reference)
  {
    assert subs[..k + 1][..k] == subs[..k];
  }

  /** Once an exception is raised, later submeshes do not change it. */
  lemma {:induction false} FirstErrorSticks(subs: seq<Submesh>, k: nat, uvCount: nat, reference: Topology)
    requires k <= |subs| && FirstError(subs[..k], uvCount, reference).Some?
    ensures FirstError(subs, uvCount, reference) == FirstError(subs[..k], uvCount, reference)
  {
    if k < |subs| {
      var p := subs[..|subs| - 1];
      assert p[..k] == subs[..k];
      FirstErrorSticks(p, k, uvCount, reference);
    } else {
      assert subs[..k] == subs;
    }
  }

  // ---------------------------------------------------------------- one mesh

  /**
   * The topology the submeshes are compared with: the first mesh sets it from
   * its submesh 0; otherwise (or when the first mesh has no submesh) it is the
   * topology carried in.
   */
  function ReferenceFor(subs: seq<Submesh>, isFirstMesh: bool, carried: Topology): Topology {
    if isFirstMesh && |subs| > 0 then subs[0].topology else carried
  }

  /** Merging the submeshes of one mesh whose first submesh has global index t0. */
  function CombineSpec(mesh: MeshData, grid: Grid, t0: nat, reference: Topology): Result<Combination, MergeError>
    requires grid.Valid()
  {
    match FirstError(mesh.submeshes, |mesh.uv|, reference)
    case Some(e) => Failure(e)
    case None => Success(Combination(Flatten(mesh.submeshes), CombinedUVs(mesh.uv, mesh.submeshes, t0, grid), reference))
  }

  /** A mesh whose submeshes are clean up to k, where submesh k raises e, fails with e. */
  lemma CombineFailsAt(mesh: MeshData, grid: Grid, t0: nat, reference: Topology, k: nat, e: MergeError)
    requires grid.Valid() && k < |mesh.submeshes|
    requires FirstError(mesh.submeshes[..k], |mesh.uv|, reference).None?
    requires SubmeshError(mesh.submeshes[k], |mesh.uv|, reference) == Some(e)
    ensures CombineSpec(mesh, grid, t0, reference) == Failure(e)
  {
    FirstErrorStep(mesh.submeshes, k, |mesh.uv|, reference);
    FirstErrorSticks(mesh.submeshes, k + 1, |mesh.uv|, reference);
  }

  /**
   * The state the loop over one mesh's submeshes carries after sm of them:
   * the indices copied so far, the UVs written so far, and no exception yet.
   */
  predicate CombinedUpTo(mesh: MeshData, grid: Grid, t0: nat, reference: Topology, sm: nat, indices: seq<nat>, uvs: seq<UV>)
    requires grid.Valid()
  {
    && sm <= |mesh.submeshes|
    && indices == Concat(IndexLists(mesh.submeshes)[..sm])
    && FirstError(mesh.submeshes[..sm], |mesh.uv|, reference).None?
    && uvs == CombinedUVs(mesh.uv, mesh.submeshes[..sm], t0, grid)
  }

  /** Before the first submesh nothing is copied and every UV is (0, 0). */
  lemma CombinedUpToStart(mesh: MeshData, grid: Grid, t0: nat, reference: Topology, uvs: seq<UV>)
    requires grid.Valid() && |uvs| == |mesh.uv| && forall v | 0 <= v < |uvs| :: uvs[v] == Origin
    ensures CombinedUpTo(mesh, grid, t0, reference, 0, [], uvs)
  {
    assert IndexLists(mesh.submeshes)[..0] == [];
    assert mesh.submeshes[..0] == [];
  }

  /** A submesh of another topology than the reference ends the merge of the mesh with TopologyMismatch. */
  lemma CombineTopologyFails(mesh: MeshData, grid: Grid, t0: nat, reference: Topology, sm: nat, indices: seq<nat>, uvs: seq<UV>)
    requires grid.Valid() && sm < |mesh.submeshes| && CombinedUpTo(mesh, grid, t0, reference, sm, indices, uvs)
    requires mesh.submeshes[sm].topology != reference
    ensures CombineSpec(mesh, grid, t0, reference) == Failure(TopologyMismatch)
  {
    CombineFailsAt(mesh, grid, t0, reference, sm, TopologyMismatch);
  }

  /**
   * A submesh of the reference topology fits in the rest of the combined
   * buffer; when all its indices have UVs it extends the state by its
   * indices and its UV overwrite, otherwise the mesh fails with IndexOutOfRange.
   */
  lemma CombineStep(mesh: MeshData, grid: Grid, t0: nat, reference: Topology, sm: nat, indices: seq<nat>, uvs: seq<UV>)
    requires grid.Valid() && sm < |mesh.submeshes| && CombinedUpTo(mesh, grid, t0, reference, sm, indices, uvs)
    requires mesh.submeshes[sm].topology == reference
    ensures |indices| + |mesh.submeshes[sm].indices| <= |Flatten(mesh.submeshes)|
    ensures (forall j | 0 <= j < |mesh.submeshes[sm].indices| :: mesh.submeshes[sm].indices[j] < |mesh.uv|) ==>
              CombinedUpTo(mesh, grid, t0, reference, sm + 1, indices + mesh.submeshes[sm].indices,
                           Overwrite(uvs, mesh.uv, mesh.submeshes[sm].indices, t0 + sm, grid))
    ensures !(forall j | 0 <= j < |mesh.submeshes[sm].indices| :: mesh.submeshes[sm].indices[j] < |mesh.uv|) ==>
              CombineSpec(mesh, grid, t0, reference) == Failure(IndexOutOfRange)
  {
    var lists := IndexLists(mesh.submeshes);
    ConcatStep(lists, sm);
    TotalLengthPrefix(lists, sm + 1);
    FirstErrorStep(mesh.submeshes, sm, |mesh.uv|, reference);
    CombinedUVsStep(mesh.uv, mesh.submeshes, sm, t0, grid);
    if !(forall j | 0 <= j < |mesh.submeshes[sm].indices| :: mesh.submeshes[sm].indices[j] < |mesh.uv|) {
      CombineFailsAt(mesh, grid, t0, reference, sm, IndexOutOfRange);
    }
  }

  /** After the last submesh the state is the mesh's combination. */
  lemma CombinedUpToEnd(mesh: MeshData, grid: Grid, t0: nat, reference: Topology, indices: seq<nat>, uvs: seq<UV>)
    requires grid.Valid() && CombinedUpTo(mesh, grid, t0, reference, |mesh.submeshes|, indices, uvs)
    ensures |indices| == |Flatten(mesh.submeshes)|
    ensures CombineSpec(mesh, grid, t0, reference) == Success(Combination(indices, uvs, reference))
  {
    assert mesh.submeshes[..|mesh.submeshes|] == mesh.submeshes;
    assert IndexLists(mesh.submeshes)[..|mesh.submeshes|] == IndexLists(mesh.submeshes);
  }

  // ---------------------------------------------------------------- all meshes

  function SubmeshLists(meshes: seq<MeshData>): seq<seq<Submesh>>
  {
    seq(|meshes|, m requires 0 <= m < |meshes| => meshes[m].submeshes)
  }

  /** The global submesh order shared with the texture lists. */
  function Enumerate(meshes: seq<MeshData>): seq<Submesh> {
    Concat(SubmeshLists(meshes))
  }

  /** The global index of submesh sm of mesh m: the counter is never reset between meshes. */
  function GlobalIndex(meshes: seq<MeshData>, m: nat, sm: nat): nat
    requires m <= |meshes|
  {
    TotalLength(SubmeshLists(meshes)[..m]) + sm
  }

  /** Global index k names submesh sm of mesh m in the shared enumeration. */
  lemma EnumerateAt(meshes: seq<MeshData>, m: nat, sm: nat)
    requires m < |meshes| && sm < |meshes[m].submeshes|
    ensures GlobalIndex(meshes, m, sm) < |Enumerate(meshes)|
    ensures Enumerate(meshes)[GlobalIndex(meshes, m, sm)] == meshes[m].submeshes[sm]
  {
    ConcatAt(SubmeshLists(meshes), m, sm);
  }

  /** The global index strictly increases along (mesh ascending, submesh ascending). */
  lemma GlobalIndexIncreasing(meshes: seq<MeshData>, m1: nat, sm1: nat, m2: nat, sm2: nat)
    requires m1 < |meshes| && sm1 < |meshes[m1].submeshes|
    requires m2 < |meshes| && sm2 < |meshes[m2].submeshes|
    requires m1 < m2 || (m1 == m2 && sm1 < sm2)
    ensures GlobalIndex(meshes, m1, sm1) < GlobalIndex(meshes, m2, sm2)
  {
    var ss := SubmeshLists(meshes);
    if m1 < m2 {
      ConcatStep(ss, m1);
      assert ss[..m2][..m1 + 1] == ss[..m1 + 1];
      TotalLengthPrefix(ss[..m2], m1 + 1);
    }
  }

  /** Submesh 0 of mesh 0 fixes the topology; Triangles when there is no such submesh. */
  function ReferenceTopology(meshes: seq<MeshData>): Topology {
    if |meshes| > 0 then ReferenceFor(meshes[0].submeshes, true, Triangles) else Triangles
  }

  /** Each mesh merged on its own, with its global start index and the shared reference topology. */
  function PerMesh(meshes: seq<MeshData>, grid: Grid, reference: Topology): (r: seq<Result<Combination, MergeError>>)
    requires grid.Valid()
    ensures |r| == |meshes|
  {
    seq(|meshes|, m requires 0 <= m < |meshes| => CombineSpec(meshes[m], grid, GlobalIndex(meshes, m, 0), reference))
  }

  /** The whole merge: the meshes in order, the first failing one aborting everything. */
  function MergeSpec(meshes: seq<MeshData>, grid: Grid): (r: Result<seq<Combination>, MergeError>)
    requires grid.Valid()
    ensures r.Success? ==> |r.value| == |meshes|
  {
    Collect(PerMesh(meshes, grid, ReferenceTopology(meshes)))
  }

  /** The next mesh's global start index follows the submeshes of the one before. */
  lemma GlobalIndexStep(meshes: seq<MeshData>, m: nat)
    requires m < |meshes|
    ensures GlobalIndex(meshes, m + 1, 0) == GlobalIndex(meshes, m, 0) + |meshes[m].submeshes|
  {
    ConcatStep(SubmeshLists(meshes), m);
  }

  /**
   * The merge succeeds exactly when every submesh of every mesh has the
   * reference topology and every index has a UV to read.
   */
  lemma MergeSucceedsIff(meshes: seq<MeshData>, grid: Grid)
    requires grid.Valid()
    ensures MergeSpec(meshes, grid).Success? <==>
            forall m, k | 0 <= m < |meshes| && 0 <= k < |meshes[m].submeshes| ::
              SubmeshFits(meshes[m].submeshes[k], |meshes[m].uv|, ReferenceTopology(meshes))
  {
    var ref := ReferenceTopology(meshes);
    CollectSuccess(PerMesh(meshes, grid, ref));
    forall m | 0 <= m < |meshes|
      ensures PerMesh(meshes, grid, ref)[m].Success? <==>
              forall k | 0 <= k < |meshes[m].submeshes| :: SubmeshFits(meshes[m].submeshes[k], |meshes[m].uv|, ref)
    {
      FirstErrorNone(meshes[m].submeshes, |meshes[m].uv|, ref);
    }
  }

  /**
   * When two submeshes anywhere in the input (in the same mesh or in
   * different meshes) have different topologies, no mesh is returned.
   */
  lemma MixedTopologyFails(meshes: seq<MeshData>, grid: Grid, m1: nat, k1: nat, m2: nat, k2: nat)
    requires grid.Valid()
    requires m1 < |meshes| && k1 < |meshes[m1].submeshes| && m2 < |meshes| && k2 < |meshes[m2].submeshes|
    requires meshes[m1].submeshes[k1].topology != meshes[m2].submeshes[k2].topology
    ensures MergeSpec(meshes, grid).Failure?
  {
    MergeSucceedsIff(meshes, grid);
  }

  /**
   * A failed merge reports the exception of the first mesh that raises one:
   * every mesh before it merges cleanly, and within it the first failing
   * submesh decides the exception.
   */
  lemma MergeFailsAtFirstMesh(meshes: seq<MeshData>, grid: Grid)
    requires grid.Valid() && MergeSpec(meshes, grid).Failure?
    ensures exists m | 0 <= m < |meshes| ::
              && FirstError(meshes[m].submeshes, |meshes[m].uv|, ReferenceTopology(meshes)) == Some(MergeSpec(meshes, grid).error)
              && forall j | 0 <= j < m :: FirstError(meshes[j].submeshes, |meshes[j].uv|, ReferenceTopology(meshes)).None?
  {
    var rs := PerMesh(meshes, grid, ReferenceTopology(meshes));
    CollectFirstFailure(rs);
    var m :| 0 <= m < |rs| && rs[m] == Failure(Collect(rs).error) && forall j | 0 <= j < m :: rs[j].Success?;
    assert rs[m] == CombineSpec(meshes[m], grid, GlobalIndex(meshes, m, 0), ReferenceTopology(meshes));
    forall j | 0 <= j < m
      ensures FirstError(meshes[j].submeshes, |meshes[j].uv|, ReferenceTopology(meshes)).None?
    {
      assert rs[j] == CombineSpec(meshes[j], grid, GlobalIndex(meshes, j, 0), ReferenceTopology(meshes));
    }
  }

  /** A successful merge of one mesh yields the combined indices and the last-write-wins UVs. */
  lemma CombineSpecValue(mesh: MeshData, grid: Grid, t0: nat, reference: Topology, v: nat)
    requires grid.Valid() && CombineSpec(mesh, grid, t0, reference).Success? && v < |mesh.uv|
    ensures var c := CombineSpec(mesh, grid, t0, reference).value;
            && c.indices == Flatten(mesh.submeshes)
            && c.topology == reference
            && |c.uv| == |mesh.uv|
            && c.uv[v] == RemappedUV(mesh.uv, mesh.submeshes, t0, grid, v)
  {
  }

  /**
   * On success, mesh m keeps its index count and its indices in submesh order,
   * ends with as many UVs as it had, and every vertex gets the UV of the last
   * submesh that references it, placed in the cell of that submesh's global
   * index; unreferenced vertices get (0, 0).
   */
  lemma MergedMesh(meshes: seq<MeshData>, grid: Grid, m: nat, v: nat)
    requires grid.Valid() && MergeSpec(meshes, grid).Success?
    requires m < |meshes| && v < |meshes[m].uv|
    ensures |MergeSpec(meshes, grid).value| == |meshes|
    ensures var c := MergeSpec(meshes, grid).value[m];
            && c.indices == Flatten(meshes[m].submeshes)
            && |c.indices| == TotalLength(IndexLists(meshes[m].submeshes))
            && c.topology == ReferenceTopology(meshes)
            && |c.uv| == |meshes[m].uv|
            && match LastReferencing(meshes[m].submeshes, v)
               case None => c.uv[v] == Origin
               case Some(sm) =>
                 && c.uv[v] == Remap(meshes[m].uv[v], GlobalIndex(meshes, m, sm), grid)
                 && InRect(c.uv[v], CellRect(GlobalIndex(meshes, m, sm), grid))
  {
    var ref := ReferenceTopology(meshes);
    var t0 := GlobalIndex(meshes, m, 0);
    MergedMeshIsCombination(meshes, grid, m);
    var c := MergeSpec(meshes, grid).value[m];
    CombineSpecValue(meshes[m], grid, t0, ref, v);
    assert c.uv[v] == RemappedUV(meshes[m].uv, meshes[m].submeshes, t0, grid, v);
    match LastReferencing(meshes[m].submeshes, v)
    case None =>
    case Some(sm) =>
      assert t0 + sm == GlobalIndex(meshes, m, sm);
      RemapInCell(meshes[m].uv[v], GlobalIndex(meshes, m, sm), grid);
  }

  /** On success, combination m of the merge is mesh m merged on its own from its global start index. */
  lemma MergedMeshIsCombination(meshes: seq<MeshData>, grid: Grid, m: nat)
    requires grid.Valid() && MergeSpec(meshes, grid).Success? && m < |meshes|
    ensures |MergeSpec(meshes, grid).value| == |meshes|
    ensures CombineSpec(meshes[m], grid, GlobalIndex(meshes, m, 0), ReferenceTopology(meshes)) ==
            Success(MergeSpec(meshes, grid).value[m])
  {
    var rs := PerMesh(meshes, grid, ReferenceTopology(meshes));
    CollectValue(rs, m);
    assert rs[m] == CombineSpec(meshes[m], grid, GlobalIndex(meshes, m, 0), ReferenceTopology(meshes));
  }

  /**
   * The state the loop over the meshes carries after m meshes: the counter
   * and the topology carried on, and the combinations of those m meshes.
   */
  predicate MergedUpTo(meshes: seq<MeshData>, grid: Grid, m: nat, t: nat, topology: Topology, done: seq<Combination>)
    requires grid.Valid()
  {
    && m <= |meshes|
    && t == GlobalIndex(meshes, m, 0)
    && topology == (if m == 0 then Triangles else ReferenceTopology(meshes))
    && Collect(PerMesh(meshes, grid, ReferenceTopology(meshes))[..m]) == Success(done)
  }

  /** Nothing is merged before the first mesh. */
  lemma MergedUpToStart(meshes: seq<MeshData>, grid: Grid)
    requires grid.Valid()
    ensures MergedUpTo(meshes, grid, 0, 0, Triangles, [])
  {
    assert PerMesh(meshes, grid, ReferenceTopology(meshes))[..0] == [];
  }

  /**
   * Merging mesh m with the carried counter and topology either raises the
   * merge's error or extends the state by mesh m's combination.
   */
  lemma MergeStep(meshes: seq<MeshData>, grid: Grid, m: nat, t: nat, topology: Topology, done: seq<Combination>,
                  r: Result<Combination, MergeError>, t': nat)
    requires grid.Valid() && m < |meshes| && MergedUpTo(meshes, grid, m, t, topology, done)
    requires r == CombineSpec(meshes[m], grid, t, ReferenceFor(meshes[m].submeshes, m == 0, topology))
    requires r.Success? ==> t' == t + |meshes[m].submeshes|
    ensures r.Failure? ==> MergeSpec(meshes, grid) == Failure(r.error)
    ensures r.Success? ==> MergedUpTo(meshes, grid, m + 1, t', r.value.topology, done + [r.value])
  {
    var reference := ReferenceTopology(meshes);
    var rs := PerMesh(meshes, grid, reference);
    assert ReferenceFor(meshes[m].submeshes, m == 0, topology) == reference;
    assert rs[m] == r;
    if r.Failure? {
      CollectStepFails(rs, m);
    } else {
      CollectStep(rs, m, done, r.value);
      GlobalIndexStep(meshes, m);
    }
  }

  /** After the last mesh the carried combinations are the merge's result. */
  lemma MergedUpToEnd(meshes: seq<MeshData>, grid: Grid, t: nat, topology: Topology, done: seq<Combination>)
    requires grid.Valid() && MergedUpTo(meshes, grid, |meshes|, t, topology, done)
    ensures MergeSpec(meshes, grid) == Success(done)
  {
    var rs := PerMesh(meshes, grid, ReferenceTopology(meshes));
    assert rs[..|meshes|] == rs;
  }
}
