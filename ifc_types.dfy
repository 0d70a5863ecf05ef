/**
 * The values that flow through the IFC viewer's geometry pipeline: the raw
 * buffers of a placed geometry as the IFC parser hands them over, the
 * de-interleaved vertex data, the per-instance record produced for every
 * placed geometry, that record with its sort key attached, and one deferred
 * materialization of the staged reveal.
 */
module IfcTypes {

  /** A 4x4 placement matrix, flattened to 16 numbers in the parser's order. */
  type Matrix4 = t: seq<real> | |t| == 16 witness seq(16, _ => 0.0)

  /** The RGBA colour of a placed geometry; `w` is also the material opacity. */
  datatype Color = Color(x: real, y: real, z: real, w: real)

  /**
   * One placed geometry of a flat mesh, with the buffers the parser returns
   * for its geometry reference: `verts` holds six numbers per vertex
   * (x, y, z, nx, ny, nz) and `indices` three vertex indices per triangle.
   */
  datatype PlacedGeometry = PlacedGeometry(
    verts: seq<real>,
    indices: seq<nat>,
    flatTransformation: Matrix4,
    color: Color)

  /** A parser-level group of placed geometries forming one model element. */
  datatype FlatMesh = FlatMesh(geometries: seq<PlacedGeometry>)

  /** Positions and normals (three numbers per vertex each) and the triangle indices. */
  datatype VertexData = VertexData(positions: seq<real>, normals: seq<real>, indices: seq<nat>)

  /** What the instance resolver yields per placed geometry, and what a mesh is built from. */
  datatype GeometryData = GeometryData(vertexData: VertexData, flatTransformation: Matrix4, color: Color)

  /** A GeometryData with the sort key of the staged reveal attached. */
  datatype KeyedGeometry = KeyedGeometry(
    vertexData: VertexData,
    flatTransformation: Matrix4,
    color: Color,
    sortKey: real)

  /** One timer of the staged reveal: build the mesh of `geometry` after `delay` ms. */
  datatype Deferred = Deferred(delay: real, geometry: GeometryData)

  /** The decoder can split `verts` only when it holds whole vertices. */
  predicate WholeVertices(pg: PlacedGeometry)
  {
    |pg.verts| % 6 == 0
  }

  predicate ValidMesh(mesh: FlatMesh)
  {
    forall i :: 0 <= i < |mesh.geometries| ==> WholeVertices(mesh.geometries[i])
  }

  predicate ValidModel(meshes: seq<FlatMesh>)
  {
    forall m :: 0 <= m < |meshes| ==> ValidMesh(meshes[m])
  }

  /** The sort key dropped again: the arguments of one mesh materialization. */
  function Unkeyed(k: KeyedGeometry): GeometryData
  {
    GeometryData(k.vertexData, k.flatTransformation, k.color)
  }
}
