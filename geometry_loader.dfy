/**
 * The instance resolver: `loadGeometry` walks the placed geometries of one
 * flat mesh and yields, per placed geometry, its decoded vertex data with
 * the placement's own transform and colour; `createMeshAnimation` collects
 * these records over every flat mesh of the model.
 */
module GeometryLoader {
  import opened IfcTypes
  import opened VertexDecoder

  /** Decoded vertex data: three numbers per vertex in both lists. */
  predicate Decoded(g: GeometryData)
  {
    |g.vertexData.positions| == |g.vertexData.normals| && |g.vertexData.positions| % 3 == 0
  }

  predicate AllDecoded(gs: seq<GeometryData>)
  {
    forall i :: 0 <= i < |gs| ==> Decoded(gs[i])
  }

  /**
   * The record yielded for one placed geometry: the buffer split into
   * positions and normals, the index buffer copied, and the placement's
   * transform and colour as they are.
   */
  function Resolve(pg: PlacedGeometry): (g: GeometryData)
    requires WholeVertices(pg)
    ensures Decoded(g)
    ensures g.vertexData.indices == pg.indices
    ensures g.flatTransformation == pg.flatTransformation && g.color == pg.color
  {
    DecodedLength(pg.verts, |pg.verts| / 6);
    GeometryData(VertexData(Positions(pg.verts), Normals(pg.verts), pg.indices), pg.flatTransformation, pg.color)
  }

  /**
   * A resolved record holds the placed geometry's whole vertex buffer: half
   * of its numbers as positions, half as normals, and re-interleaving them
   * gives the buffer back.
   */
  lemma ResolveKeepsVertices(pg: PlacedGeometry)
    requires WholeVertices(pg)
    ensures 2 * |Resolve(pg).vertexData.positions| == |pg.verts|
    ensures Interleave(Resolve(pg).vertexData.positions, Resolve(pg).vertexData.normals) == pg.verts
  {
    var count := VertexCount(pg.verts);
    DecodedLength(pg.verts, count);
    InterleaveDecoded(pg.verts);
  }

  /** The records yielded for a list of placed geometries, one per entry, in order. */
  function MeshGeometries(placed: seq<PlacedGeometry>): seq<GeometryData>
    requires forall i :: 0 <= i < |placed| ==> WholeVertices(placed[i])
  {
    seq(|placed|, i requires 0 <= i < |placed| => Resolve(placed[i]))
  }

  /** Number of placed geometries over a list of flat meshes. */
  function PlacedCount(meshes: seq<FlatMesh>): nat
  {
    if meshes == [] then 0
    else PlacedCount(meshes[..|meshes| - 1]) + |meshes[|meshes| - 1].geometries|
  }

  /** The records of every flat mesh, concatenated in mesh order. */
  function AllGeometries(meshes: seq<FlatMesh>): (r: seq<GeometryData>)
    requires ValidModel(meshes)
    ensures |r| == PlacedCount(meshes)
    ensures AllDecoded(r)
    decreases |meshes|
  {
    if meshes == [] then []
    else
      var last := meshes[|meshes| - 1];
      AllGeometries(meshes[..|meshes| - 1]) + MeshGeometries(last.geometries)
  }

  /** Two models of whole-vertex meshes, one after the other, make one. */
  lemma ValidModelAppend(a: seq<FlatMesh>, b: seq<FlatMesh>)
    requires ValidModel(a) && ValidModel(b)
    ensures ValidModel(a + b)
  {
    // The solver proves this unaided; the hints below only keep its effort steady.
    var ab := a + b;
    forall m | 0 <= m < |ab| ensures ValidMesh(ab[m]) {
      if m < |a| { assert ab[m] == a[m]; } else { assert ab[m] == b[m - |a|]; }
    }
  }

  /** Collecting over two lists of flat meshes one after the other gives the two collections concatenated. */
  lemma {:induction false} AllGeometriesAppend(a: seq<FlatMesh>, b: seq<FlatMesh>)
    requires ValidModel(a) && ValidModel(b)
    ensures ValidModel(a + b)
    ensures AllGeometries(a + b) == AllGeometries(a) + AllGeometries(b)
    decreases |b|
  {
    ValidModelAppend(a, b);
    if b == [] {
      assert a + b == a;
    } else {
      var b', last := b[..|b| - 1], b[|b| - 1];
      var ab := a + b;
      assert ValidModel(b');
      assert ab[..|ab| - 1] == a + b' && ab[|ab| - 1] == last;
      AllGeometriesAppend(a, b');
      var tail := MeshGeometries(last.geometries);
      calc {
        AllGeometries(ab);
        AllGeometries(a + b') + tail;
        (AllGeometries(a) + AllGeometries(b')) + tail;
        AllGeometries(a) + (AllGeometries(b') + tail);
        AllGeometries(a) + AllGeometries(b);
      }
    }
  }

  /**
   * Placed geometry `i` of flat mesh `m` is found, resolved, right after the
   * records of the meshes before `m`: the collection is the meshes' records
   * concatenated in order, each record carrying its own placement.
   */
  lemma {:induction false} CollectedAt(meshes: seq<FlatMesh>, m: nat, i: nat)
    requires ValidModel(meshes) && m < |meshes| && i < |meshes[m].geometries|
    ensures ValidModel(meshes[..m])
    ensures PlacedCount(meshes[..m]) + i < PlacedCount(meshes)
    ensures AllGeometries(meshes)[PlacedCount(meshes[..m]) + i] == Resolve(meshes[m].geometries[i])
    decreases |meshes|
  {
    var front := meshes[..|meshes| - 1];
    ValidModelSlice(meshes, 0, m);
    ValidModelSlice(meshes, 0, |meshes| - 1);
    assert meshes[0..m] == meshes[..m] && meshes[0..|meshes| - 1] == front;
    if m < |meshes| - 1 {
      assert front[m] == meshes[m] && front[..m] == meshes[..m];
      CollectedAt(front, m, i);
    } else {
      assert front == meshes[..m];
    }
  }

  /** Any slice of a model of whole-vertex meshes is one. */
  lemma ValidModelSlice(meshes: seq<FlatMesh>, lo: nat, hi: nat)
    requires ValidModel(meshes) && lo <= hi <= |meshes|
    ensures ValidModel(meshes[lo..hi])
  {
    // The solver proves this unaided; the hints below only keep its effort steady.
    var part := meshes[lo..hi];
    forall k | 0 <= k < |part| ensures ValidMesh(part[k]) {
      assert part[k] == meshes[lo + k];
    }
  }

  /**
   * The generator `loadGeometry`, run to completion: for each placed
   * geometry in order, de-interleave its vertex buffer, copy its index
   * buffer and pair them with its transform and colour.
   */
  method LoadGeometry(mesh: FlatMesh) returns (records: seq<GeometryData>)
    requires ValidMesh(mesh)
    ensures |records| == |mesh.geometries|
    ensures forall i :: 0 <= i < |records| ==> records[i] == Resolve(mesh.geometries[i])
  {
    var placedGeometries := mesh.geometries;
    var size := |placedGeometries|;
    records := [];
    for i := 0 to size
      invariant |records| == i
      invariant forall k :: 0 <= k < i ==> records[k] == Resolve(placedGeometries[k])
    {
      var placedGeometry := placedGeometries[i];
      var positions, normals := Deinterleave(placedGeometry.verts);
      var vertexData := VertexData(positions, normals, placedGeometry.indices);
      records := records + [GeometryData(vertexData, placedGeometry.flatTransformation, placedGeometry.color)];
    }
  }

  /**
   * The nested loops of `createMeshAnimation` that push every record of
   * every flat mesh onto `meshData`.
   */
  method CollectGeometries(meshes: seq<FlatMesh>) returns (meshData: seq<GeometryData>)
    requires ValidModel(meshes)
    ensures meshData == AllGeometries(meshes)
  {
    meshData := [];
    for i := 0 to |meshes|
      invariant ValidModel(meshes[..i])
      invariant meshData == AllGeometries(meshes[..i])
    {
      var records := LoadGeometry(meshes[i]);
      assert records == MeshGeometries(meshes[i].geometries);
      ghost var done := meshData;
      for j := 0 to |records|
        invariant meshData == done + records[..j]
      {
        meshData := meshData + [records[j]];
        assert records[..j + 1] == records[..j] + [records[j]];
      }
      assert records[..|records|] == records;
      assert meshes[..i + 1][..i] == meshes[..i];
    }
    assert meshes[..|meshes|] == meshes;
  }
}
