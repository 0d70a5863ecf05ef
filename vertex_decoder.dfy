/**
 * The vertex buffer decoder of `loadGeometry`: the parser's interleaved
 * buffer holds six numbers per vertex (x, y, z, nx, ny, nz); the loop splits
 * it into a positions list and a normals list, three numbers per vertex each,
 * in vertex order.
 */
module VertexDecoder {

  /**
   * The first three numbers of every whole group of six, in vertex order
   * (the decoder is only applied to buffers of whole vertices).
   */
  function Positions(verts: seq<real>): seq<real>
    decreases |verts|
  {
    if |verts| < 6 then []
    else
      var n := |verts| - 6;
      Positions(verts[..n]) + verts[n..n + 3]
  }

  /** The last three numbers of every whole group of six, in vertex order. */
  function Normals(verts: seq<real>): seq<real>
    decreases |verts|
  {
    if |verts| < 6 then []
    else
      var n := |verts| - 6;
      Normals(verts[..n]) + verts[n + 3..n + 6]
  }

  /**
   * The inverse of the decoder: vertex by vertex, its three position numbers
   * followed by its three normal numbers.
   */
  function Interleave(positions: seq<real>, normals: seq<real>): seq<real>
    decreases |positions|
  {
    if |positions| < 3 || |normals| < 3 then []
    else
      var n, m := |positions| - 3, |normals| - 3;
      Interleave(positions[..n], normals[..m]) + positions[n..] + normals[m..]
  }

  /** The number of whole vertices in a buffer. */
  lemma VertexCount(verts: seq<real>) returns (count: nat)
    requires |verts| % 6 == 0
    ensures |verts| == 6 * count
  {
    count := |verts| / 6;
  }

  /** A buffer of `count` vertices decodes to `3 * count` position and normal numbers. */
  lemma {:induction false} DecodedLength(verts: seq<real>, count: nat)
    requires |verts| == 6 * count
    ensures |Positions(verts)| == 3 * count && |Normals(verts)| == 3 * count
  {
    if count > 0 {
      DecodedLength(verts[..|verts| - 6], count - 1);
    }
  }

  /** Interleaving `count` positions and normals gives `6 * count` numbers. */
  lemma {:induction false} InterleavedLength(positions: seq<real>, normals: seq<real>, count: nat)
    requires |positions| == |normals| == 3 * count
    ensures |Interleave(positions, normals)| == 6 * count
  {
    if count > 0 {
      InterleavedLength(positions[..|positions| - 3], normals[..|normals| - 3], count - 1);
    }
  }

  /** Decoding a buffer with one more vertex at its end appends that vertex's position and normal. */
  lemma DecodeSnoc(verts: seq<real>, vertex: seq<real>)
    requires |vertex| == 6
    ensures Positions(verts + vertex) == Positions(verts) + vertex[..3]
    ensures Normals(verts + vertex) == Normals(verts) + vertex[3..]
  {
    // The solver proves this unaided; the hints below only keep its effort steady.
    var w, n := verts + vertex, |verts|;
    assert |w| - 6 == n;
    assert w[..n] == verts;
    assert w[n..n + 3] == vertex[..3];
    assert w[n + 3..n + 6] == vertex[3..];
  }

  /** One step of the loop: the prefix grows by the vertex at `i`. */
  lemma DecodeStep(verts: seq<real>, i: nat)
    requires i + 6 <= |verts|
    ensures Positions(verts[..i + 6]) == Positions(verts[..i]) + [verts[i], verts[i + 1], verts[i + 2]]
    ensures Normals(verts[..i + 6]) == Normals(verts[..i]) + [verts[i + 3], verts[i + 4], verts[i + 5]]
  {
    var vertex := verts[i..i + 6];
    assert verts[..i + 6] == verts[..i] + vertex;
    DecodeSnoc(verts[..i], vertex);
    assert vertex[..3] == [verts[i], verts[i + 1], verts[i + 2]];
    assert vertex[3..] == [verts[i + 3], verts[i + 4], verts[i + 5]];
  }

  /** Vertex `k`'s coordinate `j` lands at `3k+j` of positions, its normal component at `3k+j` of normals. */
  lemma {:induction false} VertexAt(verts: seq<real>, k: nat, j: nat)
    requires |verts| % 6 == 0 && k < |verts| / 6 && j < 3
    ensures 3 * k + j < |Positions(verts)| && 3 * k + j < |Normals(verts)|
    ensures Positions(verts)[3 * k + j] == verts[6 * k + j]
    ensures Normals(verts)[3 * k + j] == verts[6 * k + 3 + j]
  {
    var count := |verts| / 6;
    VertexAtCount(verts, count, k, j);
  }

  lemma {:induction false} VertexAtCount(verts: seq<real>, count: nat, k: nat, j: nat)
    requires |verts| == 6 * count && k < count && j < 3
    ensures 3 * k + j < |Positions(verts)| && 3 * k + j < |Normals(verts)|
    ensures Positions(verts)[3 * k + j] == verts[6 * k + j]
    ensures Normals(verts)[3 * k + j] == verts[6 * k + 3 + j]
  {
    var n := |verts| - 6;
    var front := verts[..n];
    DecodedLength(front, count - 1);
    DecodedLength(verts, count);
    assert Positions(verts) == Positions(front) + verts[n..n + 3];
    assert Normals(verts) == Normals(front) + verts[n + 3..n + 6];
    if k < count - 1 {
      VertexAtCount(front, count - 1, k, j);
    }
  }

  /** Re-interleaving the decoded positions and normals gives back the raw buffer. */
  lemma {:induction false} InterleaveDecoded(verts: seq<real>)
    requires |verts| % 6 == 0
    ensures Interleave(Positions(verts), Normals(verts)) == verts
  {
    InterleaveDecodedCount(verts, |verts| / 6);
  }

  lemma {:induction false} InterleaveDecodedCount(verts: seq<real>, count: nat)
    requires |verts| == 6 * count
    ensures Interleave(Positions(verts), Normals(verts)) == verts
  {
    if count > 0 {
      var n := |verts| - 6;
      var front := verts[..n];
      var p, q := Positions(verts), Normals(verts);
      InterleaveDecodedCount(front, count - 1);
      DecodedLength(front, count - 1);
      assert p == Positions(front) + verts[n..n + 3];
      assert q == Normals(front) + verts[n + 3..n + 6];
      assert p[..|p| - 3] == Positions(front) && p[|p| - 3..] == verts[n..n + 3];
      assert q[..|q| - 3] == Normals(front) && q[|q| - 3..] == verts[n + 3..n + 6];
      assert verts == front + verts[n..n + 3] + verts[n + 3..n + 6];
    }
  }

  /** Decoding an interleaved buffer gives back the positions and normals it was built from. */
  lemma {:induction false} DecodeInterleaved(positions: seq<real>, normals: seq<real>)
    requires |positions| == |normals| && |positions| % 3 == 0
    ensures Positions(Interleave(positions, normals)) == positions
    ensures Normals(Interleave(positions, normals)) == normals
  {
    DecodeInterleavedCount(positions, normals, |positions| / 3);
  }

  lemma {:induction false} DecodeInterleavedCount(positions: seq<real>, normals: seq<real>, count: nat)
    requires |positions| == |normals| == 3 * count
    ensures Positions(Interleave(positions, normals)) == positions
    ensures Normals(Interleave(positions, normals)) == normals
  {
    if count > 0 {
      var n := |positions| - 3;
      var front := Interleave(positions[..n], normals[..n]);
      var vertex := positions[n..] + normals[n..];
      assert Interleave(positions, normals) == front + vertex;
      DecodeInterleavedCount(positions[..n], normals[..n], count - 1);
      DecodeSnoc(front, vertex);
      assert vertex[..3] == positions[n..] && vertex[3..] == normals[n..];
      assert positions == positions[..n] + positions[n..];
      assert normals == normals[..n] + normals[n..];
    }
  }

  /**
   * The de-interleaving loop of `loadGeometry`: six numbers per step, the
   * first three pushed onto `positions`, the next three onto `normals`.
   */
  method Deinterleave(verts: seq<real>) returns (positions: seq<real>, normals: seq<real>)
    requires |verts| % 6 == 0
    ensures positions == Positions(verts) && normals == Normals(verts)
    ensures |positions| == |normals| && 2 * |positions| == |verts|
    ensures Interleave(positions, normals) == verts
  {
    positions, normals := [], [];
    ghost var count := VertexCount(verts);
    var i := 0;
    ghost var k := 0;
    while i < |verts|
      invariant 0 <= k <= count && i == 6 * k
      invariant positions == Positions(verts[..i])
      invariant normals == Normals(verts[..i])
    {
      DecodeStep(verts, i);
      positions := positions + [verts[i], verts[i + 1], verts[i + 2]];
      normals := normals + [verts[i + 3], verts[i + 4], verts[i + 5]];
      i, k := i + 6, k + 1;
    }
    assert verts[..i] == verts;
    DecodedLength(verts, count);
    InterleaveDecodedCount(verts, count);
  }
}
