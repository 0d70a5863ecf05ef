/**
 * The two ways the viewer turns a loaded model into meshes. `createMesh`
 * streams the flat meshes and `loadMesh` builds every record at once, in
 * order. `createMeshAnimation` collects every record, attaches sort keys,
 * sorts stably by key and sets one timer per record across the reveal
 * window. A mesh build is represented by the record it is built from.
 */
module MeshPipeline {
  import opened IfcTypes
  import opened GeometryLoader
  import opened SortKey
  import opened StableSort
  import opened RevealSchedule

  /** The order of the staged reveal: every record of the model keyed and stably sorted by key. */
  function RevealOrder(meshes: seq<FlatMesh>): seq<KeyedGeometry>
    requires ValidModel(meshes)
  {
    StableSorted(WithSortKeys(AllGeometries(meshes)))
  }

  /**
   * The reveal order is the model's keyed records, permuted into ascending
   * key order, with records of equal key in their collection order.
   */
  lemma RevealOrderIsStableSort(meshes: seq<FlatMesh>)
    requires ValidModel(meshes)
    ensures SortedByKey(RevealOrder(meshes))
    ensures multiset(RevealOrder(meshes)) == multiset(WithSortKeys(AllGeometries(meshes)))
    ensures forall key :: WithKey(RevealOrder(meshes), key) == WithKey(WithSortKeys(AllGeometries(meshes)), key)
  {
    var keyed := WithSortKeys(AllGeometries(meshes));
    StableSortedIsSorted(keyed);
    StableSortedIsPermutation(keyed);
    forall key ensures WithKey(RevealOrder(meshes), key) == WithKey(keyed, key) {
      StableSortedIsStable(keyed, key);
    }
  }

  /** The staged reveal builds the same meshes as the immediate path, each as many times. */
  lemma RevealBuildsEveryMesh(meshes: seq<FlatMesh>)
    requires ValidModel(meshes)
    ensures multiset(Unkeys(RevealOrder(meshes))) == multiset(AllGeometries(meshes))
  {
    var gs := AllGeometries(meshes);
    StableSortedKeepsGeometries(WithSortKeys(gs));
    assert Unkeys(WithSortKeys(gs)) == gs;
  }

  /**
   * `createMeshAnimation`: nothing without a scene; otherwise collect,
   * key, sort in place and schedule.
   */
  method CreateMeshAnimation(sceneReady: bool, meshes: seq<FlatMesh>) returns (timers: seq<Deferred>)
    requires ValidModel(meshes)
    ensures timers == if sceneReady then Timeline(RevealOrder(meshes)) else []
  {
    if !sceneReady {
      return [];
    }
    var meshData := CollectGeometries(meshes);
    var keyed := AttachSortKeys(meshData);
    assert keyed == WithSortKeys(meshData);
    var sorted := new KeyedGeometry[|keyed|](i requires 0 <= i < |keyed| => keyed[i]);
    assert sorted[..] == keyed;
    SortByKey(sorted);
    timers := ScheduleReveal(sorted[..]);
  }

  /** `loadMesh`: nothing without a scene; otherwise build every record of the flat mesh, in order. */
  method LoadMesh(sceneReady: bool, mesh: FlatMesh) returns (built: seq<GeometryData>)
    requires ValidMesh(mesh)
    ensures built == if sceneReady then MeshGeometries(mesh.geometries) else []
  {
    built := [];
    if !sceneReady {
      return;
    }
    var records := LoadGeometry(mesh);
    for i := 0 to |records|
      invariant built == records[..i]
    {
      built := built + [records[i]];
    }
    assert records[..|records|] == records;
  }

  /** `createMesh`: `loadMesh` on every flat mesh the parser streams, in order. */
  method CreateMesh(sceneReady: bool, meshes: seq<FlatMesh>) returns (built: seq<GeometryData>)
    requires ValidModel(meshes)
    ensures built == if sceneReady then AllGeometries(meshes) else []
  {
    built := [];
    for i := 0 to |meshes|
      invariant ValidModel(meshes[..i])
      invariant built == if sceneReady then AllGeometries(meshes[..i]) else []
    {
      var more := LoadMesh(sceneReady, meshes[i]);
      built := built + more;
      assert meshes[..i + 1][..i] == meshes[..i];
    }
    assert meshes[..|meshes|] == meshes;
  }

  /**
   * The handler run once the model is open: the staged reveal when
   * `isAnimation` is set, the immediate build otherwise.
   */
  method LoadIfcModel(isAnimation: bool, sceneReady: bool, meshes: seq<FlatMesh>)
    returns (built: seq<GeometryData>, timers: seq<Deferred>)
    requires ValidModel(meshes)
    ensures isAnimation ==> built == [] && timers == (if sceneReady then Timeline(RevealOrder(meshes)) else [])
    ensures !isAnimation ==> timers == [] && built == (if sceneReady then AllGeometries(meshes) else [])
  {
    if isAnimation {
      built := [];
      timers := CreateMeshAnimation(sceneReady, meshes);
    } else {
      built := CreateMesh(sceneReady, meshes);
      timers := [];
    }
  }
}
