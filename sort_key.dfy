/**
 * The sort key of the staged reveal: `createMeshAnimation` maps every
 * record to a copy with `sortKey` attached, the transform's entry 13 (the
 * placement's vertical offset) plus `posy`, the lowest third coordinate of
 * the record's own positions, starting from 100000.
 */
module SortKey {
  import opened IfcTypes
  import opened GeometryLoader

  /** The starting value of the running minimum. */
  const DepthCeiling: real := 100000.0

  /** `Math.min` on two numbers. */
  function Min(a: real, b: real): real
  {
    if a <= b then a else b
  }

  /**
   * `posy`: the least of 100000 and every third coordinate (indices 2, 5,
   * 8, ...) of `positions`.
   */
  function MinDepth(positions: seq<real>): (posy: real)
    requires |positions| % 3 == 0
    ensures posy <= DepthCeiling
    ensures forall i :: 0 <= i < |positions| && i % 3 == 2 ==> posy <= positions[i]
    ensures posy == DepthCeiling || exists i :: 0 <= i < |positions| && i % 3 == 2 && posy == positions[i]
    decreases |positions|
  {
    if positions == [] then DepthCeiling
    else Min(MinDepth(positions[..|positions| - 3]), positions[|positions| - 1])
  }

  /** One step of the loop: the prefix grows by the vertex at `i`. */
  lemma MinDepthStep(positions: seq<real>, i: nat, k: nat)
    requires i == 3 * k && i + 3 <= |positions|
    ensures MinDepth(positions[..i + 3]) == Min(MinDepth(positions[..i]), positions[i + 2])
  {
    // The solver proves this unaided; the hints below only keep its effort steady.
    var w := positions[..i + 3];
    assert w[..|w| - 3] == positions[..i];
  }

  /**
   * The running-minimum loop: start at 100000 and lower `posy` to every
   * `positions[i + 2]`, stepping `i` by three.
   */
  method ScanMinDepth(positions: seq<real>) returns (posy: real)
    requires |positions| % 3 == 0
    ensures posy == MinDepth(positions)
  {
    ghost var count := TripleCount(positions);
    posy := DepthCeiling;
    var i := 0;
    ghost var k := 0;
    while i < |positions|
      invariant 0 <= k <= count && i == 3 * k
      invariant posy == MinDepth(positions[..i])
    {
      MinDepthStep(positions, i, k);
      posy := Min(posy, positions[i + 2]);
      i, k := i + 3, k + 1;
    }
    assert positions[..i] == positions;
  }

  /** The number of whole vertices in a positions list. */
  lemma TripleCount(positions: seq<real>) returns (count: nat)
    requires |positions| % 3 == 0
    ensures |positions| == 3 * count
  {
    count := |positions| / 3;
  }

  /**
   * The record with `sortKey` attached by the object spread: every other
   * field carried over, and the key bounded by the placement's offset plus
   * any third coordinate, and by the offset plus 100000.
   */
  function WithSortKey(g: GeometryData): (k: KeyedGeometry)
    requires Decoded(g)
    ensures Unkeyed(k) == g
    ensures k.sortKey <= g.flatTransformation[13] + DepthCeiling
    ensures forall i :: 0 <= i < |g.vertexData.positions| && i % 3 == 2 ==>
              k.sortKey <= g.flatTransformation[13] + g.vertexData.positions[i]
    ensures g.vertexData.positions == [] ==> k.sortKey == g.flatTransformation[13] + DepthCeiling
    ensures k.sortKey == g.flatTransformation[13] + DepthCeiling ||
            exists i :: 0 <= i < |g.vertexData.positions| && i % 3 == 2 &&
              k.sortKey == g.flatTransformation[13] + g.vertexData.positions[i]
  {
    KeyedGeometry(g.vertexData, g.flatTransformation, g.color,
                  g.flatTransformation[13] + MinDepth(g.vertexData.positions))
  }

  /** Every record of a list with its sort key attached, in the same order. */
  function WithSortKeys(gs: seq<GeometryData>): seq<KeyedGeometry>
    requires AllDecoded(gs)
  {
    seq(|gs|, i requires 0 <= i < |gs| => WithSortKey(gs[i]))
  }

  /** The callback of the `map`: scan for `posy`, then spread the record with its key. */
  method AttachSortKey(v: GeometryData) returns (k: KeyedGeometry)
    requires Decoded(v)
    ensures k == WithSortKey(v)
  {
    var posy := ScanMinDepth(v.vertexData.positions);
    k := KeyedGeometry(v.vertexData, v.flatTransformation, v.color, v.flatTransformation[13] + posy);
  }

  /** `meshData.map(...)`: a new list holding each record with its key, in the same order. */
  method AttachSortKeys(meshData: seq<GeometryData>) returns (keyed: seq<KeyedGeometry>)
    requires AllDecoded(meshData)
    ensures |keyed| == |meshData|
    ensures forall i :: 0 <= i < |keyed| ==> keyed[i] == WithSortKey(meshData[i])
  {
    keyed := [];
    for i := 0 to |meshData|
      invariant |keyed| == i
      invariant forall k :: 0 <= k < i ==> keyed[k] == WithSortKey(meshData[k])
    {
      var k := AttachSortKey(meshData[i]);
      keyed := keyed + [k];
    }
  }
}
