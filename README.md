# IFC viewer geometry pipeline, modelled in Dafny

This project models the geometry pipeline of the IFC viewer component
(`src/IFCViewer.tsx`). The IFC parser hands over flat meshes. Each flat
mesh has placed geometries. A placed geometry carries a 4x4 placement matrix
(flattened to 16 numbers) and an RGBA colour, and it refers to a geometry
whose buffers the parser returns on request:

- an interleaved vertex buffer of six numbers per vertex (x, y, z, nx, ny, nz);
- an index buffer.

The model carries those two buffers in the placed geometry itself.

The viewer turns this into meshes in one of two ways:

- **Immediately** (`createMesh` and `loadMesh`; unreachable as written, since `isAnimation` is the constant `true`): every record yielded by
  `loadGeometry` is built, mesh after mesh, in order.
- **As a staged reveal** (`createMeshAnimation`):
  1. the records of every flat mesh are collected;
  2. each record gets a sort key: the matrix entry 13 plus the lowest third
     coordinate of its own positions, starting from 100000;
  3. the records are sorted stably by ascending key;
  4. one timer per record is spread evenly over 10 seconds.

The modules follow that structure:

| module | file | what it holds |
|---|---|---|
| `IfcTypes` | `ifc_types.dfy` | the values passed along the pipeline |
| `VertexDecoder` | `vertex_decoder.dfy` | the de-interleaving loop, its specification and its inverse |
| `GeometryLoader` | `geometry_loader.dfy` | the per-placed-geometry record and the collection over all flat meshes |
| `SortKey` | `sort_key.dfy` | the running-minimum loop and the keyed record |
| `StableSort` | `stable_sort.dfy` | the sort in place on an array, proved against a functional stable sort |
| `RevealSchedule` | `reveal_schedule.dfy` | the delay list of the reveal |
| `MeshPipeline` | `mesh_pipeline.dfy` | `createMeshAnimation`, `loadMesh`, `createMesh` and the dispatch on the animation flag |

Loops in the source are methods with loop invariants. Each method is proved
equal to a specification function. The properties are proved about those
functions as lemmas.

Modelling choices:

- The sort works in place on an `array`, as the source does.
- A built mesh is represented by the record it is built from.
- A timer is represented by a `Deferred(delay, record)` value.
- Whether a scene exists is a boolean parameter, `sceneReady`.
- Numbers are mathematical reals.

## Model

| member | source | states |
|---|---|---|
| VertexDecoder.Deinterleave | src/IFCViewer.tsx:151-156 | the loop yields exactly the first three numbers of every group of six as positions and the last three as normals, each half as long as the buffer, and re-interleaving them gives the buffer back |
| VertexDecoder.DecodedLength | src/IFCViewer.tsx:151-156 | a buffer of `count` whole vertices decodes to `3 * count` positions and `3 * count` normals |
| VertexDecoder.VertexAt | src/IFCViewer.tsx:153-156 | vertex `k`'s coordinate `j` is at `positions[3k+j]` (from `verts[6k+j]`) and its normal component at `normals[3k+j]` (from `verts[6k+3+j]`), so vertex order is kept |
| VertexDecoder.DecodeStep | src/IFCViewer.tsx:153-156 | one loop step appends exactly `verts[i..i+3]` to positions and `verts[i+3..i+6]` to normals |
| VertexDecoder.InterleaveDecoded | src/IFCViewer.tsx:153-156 | re-interleaving the decoded positions and normals reconstructs the raw buffer exactly |
| VertexDecoder.DecodeInterleaved | src/IFCViewer.tsx:153-156 | decoding an interleaved buffer gives back the positions and normals it was built from, so decoding is a bijection on whole-vertex buffers |
| VertexDecoder.InterleavedLength | src/IFCViewer.tsx:153-156 | interleaving `3 * count` positions with as many normals gives `6 * count` numbers |
| GeometryLoader.Resolve | src/IFCViewer.tsx:143-169 | the record of one placed geometry has positions and normals of equal length (three per vertex), the index buffer element for element, and the placement's own transform and colour unchanged |
| GeometryLoader.ResolveKeepsVertices | src/IFCViewer.tsx:151-162 | the record holds the whole vertex buffer: it has half as many positions as the buffer has numbers, and re-interleaving gives the buffer back |
| GeometryLoader.LoadGeometry | src/IFCViewer.tsx:139-173 | the generator yields exactly one record per placed geometry, in the flat mesh's order, each the resolution of that placed geometry |
| GeometryLoader.AllGeometries | src/IFCViewer.tsx:95-102 | the collection over all flat meshes has one decoded record per placed geometry of the model |
| GeometryLoader.AllGeometriesAppend | src/IFCViewer.tsx:95-102 | collecting over two runs of flat meshes gives the two collections concatenated in order |
| GeometryLoader.CollectedAt | src/IFCViewer.tsx:95-102 | placed geometry `i` of flat mesh `m` appears, resolved, at position (records of meshes before `m`) + `i` of the collection |
| GeometryLoader.CollectGeometries | src/IFCViewer.tsx:95-102 | the nested push loops build exactly the concatenation of every flat mesh's records, in mesh order |
| SortKey.MinDepth | src/IFCViewer.tsx:106-109 | `posy` is at most 100000 and at most every third coordinate `positions[i]` with `i % 3 == 2`, and it is 100000 or one of those coordinates |
| SortKey.MinDepthStep | src/IFCViewer.tsx:107-108 | one loop step lowers `posy` to `positions[i + 2]` exactly when that is smaller |
| SortKey.ScanMinDepth | src/IFCViewer.tsx:106-109 | the running-minimum loop computes exactly `MinDepth` of the positions |
| SortKey.WithSortKey | src/IFCViewer.tsx:105-111 | the spread carries every other field over; the key is at most `t[13] + 100000` and at most `t[13] + positions[i]` for every third coordinate; it equals `t[13] + 100000` when there are no positions, and otherwise it is that bound or one of those sums |
| SortKey.AttachSortKey | src/IFCViewer.tsx:105-111 | the map callback returns exactly the keyed record `WithSortKey` |
| SortKey.AttachSortKeys | src/IFCViewer.tsx:105-111 | the map returns one keyed record per record, in the same order |
| StableSort.InsertLastPermutes | src/IFCViewer.tsx:112 | one insertion adds the inserted record and loses nothing |
| StableSort.InsertLastBounded | src/IFCViewer.tsx:112 | an insertion keeps every key below any bound the list and the inserted record respect |
| StableSort.InsertLastSorted | src/IFCViewer.tsx:112 | inserting into a list sorted by key keeps it sorted |
| StableSort.InsertLastWithKey | src/IFCViewer.tsx:112 | an insertion appends the record to the records of its own key and leaves every key's records in their order |
| StableSort.InsertLastAt | src/IFCViewer.tsx:112 | the record is inserted right after the last record whose key is not greater than its own |
| StableSort.StableSortedIsSorted | src/IFCViewer.tsx:112 | the sorted list has non-decreasing keys |
| StableSort.StableSortedIsPermutation | src/IFCViewer.tsx:112 | the sorted list is a permutation of the input |
| StableSort.StableSortedIsStable | src/IFCViewer.tsx:112 | for every key, the records with that key appear in the sorted list in their input order (stability, section 23.1.3.30 of ECMA-262, 2023 edition) |
| StableSort.InsertLastKeepsGeometries | src/IFCViewer.tsx:112 | with keys dropped, an insertion adds exactly the inserted record's data |
| StableSort.StableSortedKeepsGeometries | src/IFCViewer.tsx:112 | with keys dropped, the sorted list holds the same records as the input, each as many times |
| StableSort.InsertStep | src/IFCViewer.tsx:112 | one pass of the in-place sort turns the prefix `a[..i+1]` into the stable insertion of `a[i]` into the sorted `a[..i]`, and leaves the rest of the array alone |
| StableSort.SortByKey | src/IFCViewer.tsx:112 | the in-place sort leaves the array holding the stable sort of its old contents |
| RevealSchedule.DelayInWindow | src/IFCViewer.tsx:115-119 | every delay `i * (10000 / n)` lies in `[0, 10000)`, and rank 0 gets delay 0 |
| RevealSchedule.DelaysIncrease | src/IFCViewer.tsx:115-119 | a later rank gets a strictly larger delay |
| RevealSchedule.DelaySpacing | src/IFCViewer.tsx:115-119 | consecutive ranks get delays exactly `10000 / n` apart |
| RevealSchedule.Timeline | src/IFCViewer.tsx:116-120 | one timer per sorted record, in order, each building that record with its key dropped; no records give no timers |
| RevealSchedule.TimelineIsEven | src/IFCViewer.tsx:115-120 | the timers are given delays that start at 0, strictly increase by `10000 / n` from rank to rank, and all stay below 10000 ms |
| RevealSchedule.ScheduleReveal | src/IFCViewer.tsx:115-120 | the `forEach` sets exactly the timers of `Timeline`, delay `msec * i` for rank `i` |
| MeshPipeline.RevealOrderIsStableSort | src/IFCViewer.tsx:95-112 | the reveal order is the model's keyed records permuted into non-decreasing key order, with equal keys in collection order |
| MeshPipeline.RevealBuildsEveryMesh | src/IFCViewer.tsx:95-120 | the staged reveal builds the same records as the immediate path, each as many times |
| MeshPipeline.CreateMeshAnimation | src/IFCViewer.tsx:91-121 | without a scene nothing is scheduled; otherwise the timers are exactly the even timeline of the stably sorted keyed collection |
| MeshPipeline.LoadMesh | src/IFCViewer.tsx:124-136 | without a scene nothing is built; otherwise every record of the flat mesh is built, in order |
| MeshPipeline.CreateMesh | src/IFCViewer.tsx:86-88 | streaming every flat mesh through `loadMesh` builds the whole collection in order, or nothing without a scene |
| MeshPipeline.LoadIfcModel | src/IFCViewer.tsx:75-80 | with the animation flag set only the staged reveal runs; otherwise only the immediate build runs |

## Left out

- React state and effects and the Babylon engine, camera, light and axes setup (`src/IFCViewer.tsx:6-57`, `:215-220`) are left out. They are UI and library configuration.
- File reading, parser initialisation and `OpenModel` (`src/IFCViewer.tsx:60-83`) are left out. They are asynchronous I/O and foreign calls. Only the dispatch on `isAnimation` is modelled. In the source `isAnimation` is the constant `true` (`src/IFCViewer.tsx:12`), so the program as written always takes the staged reveal and never reaches `createMesh` or `loadMesh`. `MeshPipeline.LoadIfcModel` takes the flag as a parameter, which covers both paths.
- The parser calls `GetGeometry`, `GetVertexArray`, `GetIndexArray`, `LoadAllGeometry` and `StreamAllMeshes` are not modelled. Their results are inputs: each `PlacedGeometry` carries its vertex and index buffers, and a model is a sequence of `FlatMesh` values.
- Mesh materialization in `ifc2babylonMesh` and `createMeshFromData` (`src/IFCViewer.tsx:176-213`) is not modelled. This covers the pivot matrix, `scaling.z *= -1`, `flipFaces` and the material, all of which are wrappers over Babylon. A built mesh is represented by the record passed to it.
- Real timer behaviour is not modelled. `setTimeout` is represented by the list of `(delay, record)` pairs it is given. Browsers truncate a timer's delay to whole milliseconds, so with more than 10000 records neighbouring timers can share a delay; timers with equal delays still fire in the order they were set, so the reveal keeps the sort order. RevealSchedule.TimelineIsEven states facts about the exact delays passed to `setTimeout`, not about firing times.
- Floating point is not modelled. Numbers are reals, so `10000 / n`, `Math.min` and the key sum are exact.
- VertexDecoder.Deinterleave: requires a buffer of whole vertices. The source never checks this, and for any other length it pushes `undefined` for the missing tail; that case is not modelled.
- The scene going away is represented only by the `sceneReady` flag at the start of `loadMesh` and `createMeshAnimation`. The source has no cancellation of pending timers and no liveness check when a timer fires, so the model has neither.
- The source never rejects malformed buffers (a vertex buffer that is not a multiple of six, an index buffer that is not a multiple of three, out-of-range indices). Indices are copied as they are.
- MeshPipeline.RevealBuildsEveryMesh: the staged path gets its flat meshes from `LoadAllGeometry` (`src/IFCViewer.tsx:96`) and the immediate path from `StreamAllMeshes` (`:87`). The model feeds both paths the same `meshes` sequence. It therefore assumes the two parser calls return the same placed geometries in the same order, and this lemma relies on that assumption.
- RevealSchedule.ScheduleReveal: with no records, JavaScript computes `msec` as Infinity, but no timer ever reads it. The model uses 0 there, so the timer list is still empty.
- StableSort.SortByKey: `Array.prototype.sort` leaves the algorithm to the engine. It is modelled by an insertion sort, which is stable. Any stable sort by the same comparator produces the same list, so only the in-place steps differ. The comparator `a.sortKey - b.sortKey` is taken as the key order on reals.
