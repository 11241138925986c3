/**
 * The mesh builder of carla::geom (Mesh.cpp): vertex, normal, UV, index and material
 * lists that the Add* operations append to, the triangle-strip and triangle-fan index
 * rules, the material open/close protocol, the validity check and the OBJ writer.
 *
 * Indexes are 1-based vertex positions, as the OBJ format numbers its vertices.
 * A material is `name, index_start, index_end`; `index_end == 0` means "still open".
 */
module Geom {
  import opened Wrappers
  import Decimal

  datatype Vector2D = Vector2D(x: real, y: real)
  datatype Vector3D = Vector3D(x: real, y: real, z: real)
  datatype MeshMaterial = MeshMaterial(name: string, indexStart: nat, indexEnd: nat)

  function Last<X>(s: seq<X>): X
    requires s != []
  {
    s[|s| - 1]
  }

  // ---------------------------------------------------------------------------
  // Validity
  // ---------------------------------------------------------------------------

  /** Mesh::IsValid on the mesh's lists: some vertex, whole triangles, last material closed. */
  predicate ValidMesh(vertices: seq<Vector3D>, indexes: seq<nat>, materials: seq<MeshMaterial>)
    ensures ValidMesh(vertices, indexes, materials) <==>
      vertices != [] && |indexes| % 3 == 0 && (materials != [] ==> Last(materials).indexEnd != 0)
  {
    && vertices != []
    && !(indexes != [] && |indexes| % 3 != 0)
    && !(materials != [] && Last(materials).indexEnd == 0)
  }

  /** Every index names an existing vertex, counting from 1. */
  predicate IndexesResolve(indexes: seq<nat>, vertexCount: nat) {
    forall j :: 0 <= j < |indexes| ==> 1 <= indexes[j] <= vertexCount
  }

  /** Every index lies in `lo..hi`. */
  predicate IndexesWithin(indexes: seq<nat>, lo: nat, hi: nat) {
    forall j :: 0 <= j < |indexes| ==> lo <= indexes[j] <= hi
  }

  /** Triangle `t` walks along the directed edge `a -> b`. */
  predicate Traverses(t: seq<nat>, a: nat, b: nat)
    requires |t| == 3
  {
    (t[0] == a && t[1] == b) || (t[1] == a && t[2] == b) || (t[2] == a && t[0] == b)
  }

  /** Two triangles share the edge `a b` and walk it in opposite directions (same winding). */
  predicate SameWindingAcross(t: seq<nat>, u: seq<nat>, a: nat, b: nat)
    requires |t| == 3 && |u| == 3
  {
    (Traverses(t, a, b) && Traverses(u, b, a)) || (Traverses(t, b, a) && Traverses(u, a, b))
  }

  // ---------------------------------------------------------------------------
  // Triangle strips
  // ---------------------------------------------------------------------------

  /** The triangle the strip loop adds around vertex `i`, in the winding that `clockwise` selects. */
  function StripTriangle(i: nat, clockwise: bool): seq<nat>
    requires i >= 1
  {
    if clockwise then [i + 1, i, i - 1] else [i - 1, i, i + 1]
  }

  /**
   * The indexes AddTriangleStrip appends for `n` new vertices when the mesh held `v0` before:
   * one triangle for each new vertex from the third on, the winding flag toggled before each.
   */
  function StripIndexes(v0: nat, n: nat): seq<nat>
  {
    if n < 3 then [] else StripIndexes(v0, n - 1) + StripTriangle(v0 + n - 1, StripClockwise(n))
  }

  /** The winding flag of the triangle that the n-th new vertex closes: off for the first, then toggled. */
  function StripClockwise(n: nat): bool
  {
    if n <= 3 then false else !StripClockwise(n - 1)
  }

  /** The flag is on for the odd-numbered triangles counted from 0, that is when n - 3 is odd. */
  lemma {:induction false} StripClockwiseParity(n: nat)
    requires n >= 3
    ensures StripClockwise(n) == ((n - 3) % 2 == 1)
  {
    if n > 3 {
      StripClockwiseParity(n - 1);
    }
  }

  /** Appending the strip of n vertices is appending the strip of n - 1 and then the n-th vertex's triangle. */
  lemma StripIndexesStep(prefix: seq<nat>, v0: nat, n: nat)
    requires n >= 3
    ensures prefix + StripIndexes(v0, n) == prefix + StripIndexes(v0, n - 1) + StripTriangle(v0 + n - 1, StripClockwise(n))
  {
  }

  lemma {:induction false} StripIndexesLength(v0: nat, n: nat)
    ensures |StripIndexes(v0, n)| == if n < 3 then 0 else 3 * (n - 2)
  {
    if n >= 3 {
      StripIndexesLength(v0, n - 1);
    }
  }

  /** Index `j` of a strip: triangle j / 3 ascends from v0 + j/3 + 1 when even and descends when odd. */
  lemma {:induction false} StripIndexAt(v0: nat, n: nat, j: nat)
    requires n >= 3 && j < 3 * (n - 2)
    ensures |StripIndexes(v0, n)| == 3 * (n - 2)
    ensures StripIndexes(v0, n)[j] ==
      if (j / 3) % 2 == 0 then v0 + j / 3 + 1 + j % 3 else v0 + j / 3 + 3 - j % 3
  {
    StripIndexesLength(v0, n);
    StripIndexesLength(v0, n - 1);
    if j < 3 * (n - 3) {
      StripIndexAt(v0, n - 1, j);
    } else {
      assert j / 3 == n - 3;
      StripClockwiseParity(n);
    }
  }

  /** A strip only refers to the vertices it added: 1-based positions v0 + 1 .. v0 + n. */
  lemma StripIndexesWithin(v0: nat, n: nat)
    ensures IndexesWithin(StripIndexes(v0, n), v0 + 1, v0 + n)
  {
    StripIndexesLength(v0, n);
    forall j | 0 <= j < |StripIndexes(v0, n)|
      ensures v0 + 1 <= StripIndexes(v0, n)[j] <= v0 + n
    {
      StripIndexAt(v0, n, j);
    }
  }

  /** The k-th triangle of a strip, as three consecutive indexes. */
  function TriangleAt(indexes: seq<nat>, k: nat): (t: seq<nat>)
    requires 3 * k + 3 <= |indexes|
    ensures |t| == 3
  {
    indexes[3 * k .. 3 * k + 3]
  }

  /** The first triangle of a strip is v0 + 1, v0 + 2, v0 + 3. */
  lemma StripFirstTriangle(v0: nat, n: nat)
    requires n >= 3
    ensures |StripIndexes(v0, n)| >= 3
    ensures TriangleAt(StripIndexes(v0, n), 0) == [v0 + 1, v0 + 2, v0 + 3]
  {
    StripIndexesLength(v0, n);
    StripIndexAt(v0, n, 0);
    StripIndexAt(v0, n, 1);
    StripIndexAt(v0, n, 2);
  }

  /** Triangle k of a strip is the one the loop emits at vertex v0 + k + 2, winding by the parity of k. */
  lemma {:induction false} StripTriangleAt(v0: nat, n: nat, k: nat)
    requires k < n - 2
    ensures |StripIndexes(v0, n)| == 3 * (n - 2)
    ensures TriangleAt(StripIndexes(v0, n), k) == StripTriangle(v0 + k + 2, k % 2 == 1)
  {
    StripIndexesLength(v0, n);
    StripIndexesLength(v0, n - 1);
    var prefix := StripIndexes(v0, n - 1);
    var last := StripTriangle(v0 + n - 1, StripClockwise(n));
    assert StripIndexes(v0, n) == prefix + last;
    if k < n - 3 {
      StripTriangleAt(v0, n - 1, k);
      TriangleAtPrefix(prefix, last, k);
      assert TriangleAt(prefix, k) == StripTriangle(v0 + k + 2, k % 2 == 1);
    } else {
      assert k == n - 3;
      StripClockwiseParity(n);
      assert StripClockwise(n) == (k % 2 == 1);
      TriangleAtLast(prefix, last, k);
      assert last == StripTriangle(v0 + k + 2, k % 2 == 1);
    }
  }

  /** Appending after a sequence of triangles leaves its k-th triangle alone. */
  lemma TriangleAtPrefix(prefix: seq<nat>, t: seq<nat>, k: nat)
    requires 3 * k + 3 <= |prefix|
    ensures TriangleAt(prefix + t, k) == TriangleAt(prefix, k)
  {
    assert (prefix + t)[3 * k .. 3 * k + 3] == prefix[3 * k .. 3 * k + 3];
  }

  /** A triangle appended after k triangles is the k-th one. */
  lemma TriangleAtLast(prefix: seq<nat>, t: seq<nat>, k: nat)
    requires |prefix| == 3 * k && |t| == 3
    ensures TriangleAt(prefix + t, k) == t
  {
    assert (prefix + t)[3 * k .. 3 * k + 3] == t;
  }

  /**
   * Consecutive strip triangles share the edge between their two common vertices and walk it
   * in opposite directions: the alternating winding keeps the whole strip facing one way.
   * Even triangles list their vertices ascending, odd ones descending.
   */
  lemma StripWindingAlternates(v0: nat, n: nat, k: nat)
    requires k + 1 < n - 2
    ensures |StripIndexes(v0, n)| == 3 * (n - 2)
    ensures var t := TriangleAt(StripIndexes(v0, n), k);
      (k % 2 == 0 <==> t[0] < t[1] < t[2]) && (k % 2 == 1 <==> t[0] > t[1] > t[2])
    ensures SameWindingAcross(TriangleAt(StripIndexes(v0, n), k), TriangleAt(StripIndexes(v0, n), k + 1),
                              v0 + k + 2, v0 + k + 3)
  {
    StripIndexesLength(v0, n);
    StripTriangleAt(v0, n, k);
    StripTriangleAt(v0, n, k + 1);
  }

  // ---------------------------------------------------------------------------
  // Triangle fans
  // ---------------------------------------------------------------------------

  /**
   * The indexes AddTriangleFan appends for `n` new vertices when the mesh held `v0` before:
   * the centre v0 + 1 with each pair of consecutive rim vertices.
   */
  function FanIndexes(v0: nat, n: nat): seq<nat>
  {
    if n < 3 then [] else FanIndexes(v0, n - 1) + [v0 + 1, v0 + n - 1, v0 + n]
  }

  lemma {:induction false} FanIndexesLength(v0: nat, n: nat)
    ensures |FanIndexes(v0, n)| == if n < 3 then 0 else 3 * (n - 2)
  {
    if n >= 3 {
      FanIndexesLength(v0, n - 1);
    }
  }

  /** Triangle k of a fan is (v0 + 1, v0 + k + 2, v0 + k + 3). */
  lemma {:induction false} FanIndexAt(v0: nat, n: nat, j: nat)
    requires n >= 3 && j < 3 * (n - 2)
    ensures |FanIndexes(v0, n)| == 3 * (n - 2)
    ensures FanIndexes(v0, n)[j] == if j % 3 == 0 then v0 + 1 else v0 + j / 3 + 1 + j % 3
  {
    FanIndexesLength(v0, n);
    FanIndexesLength(v0, n - 1);
    if j < 3 * (n - 3) {
      FanIndexAt(v0, n - 1, j);
    } else {
      assert j / 3 == n - 3;
    }
  }

  /** A fan only refers to the vertices it added. */
  lemma FanIndexesWithin(v0: nat, n: nat)
    ensures IndexesWithin(FanIndexes(v0, n), v0 + 1, v0 + n)
  {
    FanIndexesLength(v0, n);
    forall j | 0 <= j < |FanIndexes(v0, n)|
      ensures v0 + 1 <= FanIndexes(v0, n)[j] <= v0 + n
    {
      FanIndexAt(v0, n, j);
    }
  }

  /** Every fan triangle starts at the centre, and consecutive ones share a spoke walked both ways. */
  lemma FanTriangles(v0: nat, n: nat, k: nat)
    requires k < n - 2
    ensures |FanIndexes(v0, n)| == 3 * (n - 2)
    ensures TriangleAt(FanIndexes(v0, n), k) == [v0 + 1, v0 + k + 2, v0 + k + 3]
    ensures k + 1 < n - 2 ==>
      SameWindingAcross(TriangleAt(FanIndexes(v0, n), k), TriangleAt(FanIndexes(v0, n), k + 1),
                        v0 + 1, v0 + k + 3)
  {
    FanIndexesLength(v0, n);
    var j := 3 * k;
    assert j / 3 == k && (j + 1) / 3 == k && (j + 2) / 3 == k;
    FanIndexAt(v0, n, j);
    FanIndexAt(v0, n, j + 1);
    FanIndexAt(v0, n, j + 2);
    assert TriangleAt(FanIndexes(v0, n), k) == [v0 + 1, v0 + k + 2, v0 + k + 3];
    if k + 1 < n - 2 {
      assert (j + 3) / 3 == k + 1 && (j + 4) / 3 == k + 1 && (j + 5) / 3 == k + 1;
      FanIndexAt(v0, n, j + 3);
      FanIndexAt(v0, n, j + 4);
      FanIndexAt(v0, n, j + 5);
      assert TriangleAt(FanIndexes(v0, n), k + 1) == [v0 + 1, v0 + k + 3, v0 + k + 4];
    }
  }

  /**
   * Adding a strip or a fan to a mesh whose indexes all name existing vertices keeps that so,
   * and keeps a whole number of triangles.
   */
  lemma PrimitivesKeepIndexesResolved(indexes: seq<nat>, v0: nat, n: nat)
    requires IndexesResolve(indexes, v0) && |indexes| % 3 == 0
    ensures IndexesResolve(indexes + StripIndexes(v0, n), v0 + n)
    ensures IndexesResolve(indexes + FanIndexes(v0, n), v0 + n)
    ensures |indexes + StripIndexes(v0, n)| % 3 == 0 && |indexes + FanIndexes(v0, n)| % 3 == 0
  {
    StripIndexesLength(v0, n);
    FanIndexesLength(v0, n);
    StripIndexesWithin(v0, n);
    FanIndexesWithin(v0, n);
    var s, f := indexes + StripIndexes(v0, n), indexes + FanIndexes(v0, n);
    forall j | 0 <= j < |s| ensures 1 <= s[j] <= v0 + n {
      if j >= |indexes| { assert s[j] == StripIndexes(v0, n)[j - |indexes|]; }
    }
    forall j | 0 <= j < |f| ensures 1 <= f[j] <= v0 + n {
      if j >= |indexes| { assert f[j] == FanIndexes(v0, n)[j - |indexes|]; }
    }
  }

  // ---------------------------------------------------------------------------
  // Materials
  // ---------------------------------------------------------------------------

  /** The materials after EndMaterial when the mesh holds `count` indexes. */
  function EndedMaterials(materials: seq<MeshMaterial>, count: nat): seq<MeshMaterial>
  {
    if materials == [] || Last(materials).indexStart == count || Last(materials).indexEnd != 0 then materials
    else if count == 0 || count % 3 != 0 then materials
    else materials[..|materials| - 1] + [Last(materials).(indexEnd := count)]
  }

  /** The materials after AddMaterial(name) when the mesh holds `count` indexes. */
  function AddedMaterials(materials: seq<MeshMaterial>, name: string, count: nat): seq<MeshMaterial>
  {
    var closed := if materials != [] && Last(materials).indexEnd == 0 then EndedMaterials(materials, count) else materials;
    if count % 3 != 0 then closed else closed + [MeshMaterial(name, count, 0)]
  }

  /**
   * EndMaterial touches at most the last material's index_end: it closes it at `count` exactly
   * when that material is open, non-empty and `count` is a non-zero multiple of 3; and ending
   * twice is ending once.
   */
  lemma EndMaterialEffect(materials: seq<MeshMaterial>, count: nat)
    ensures var r := EndedMaterials(materials, count);
      && |r| == |materials|
      && (forall j :: 0 <= j < |materials| - 1 ==> r[j] == materials[j])
      && (materials != [] ==> Last(r).name == Last(materials).name && Last(r).indexStart == Last(materials).indexStart)
      && (r != materials <==>
            materials != [] && Last(materials).indexEnd == 0 && Last(materials).indexStart != count
            && count != 0 && count % 3 == 0)
      && (r != materials ==> Last(r).indexEnd == count)
    ensures EndedMaterials(EndedMaterials(materials, count), count) == EndedMaterials(materials, count)
  {
    var r := EndedMaterials(materials, count);
    if r != materials {
      assert Last(r).indexEnd == count;
    }
  }

  /**
   * AddMaterial appends `name, count, 0` exactly when `count` is a multiple of 3; everything
   * before it is what closing the previous open material leaves.
   */
  lemma AddMaterialEffect(materials: seq<MeshMaterial>, name: string, count: nat)
    ensures var r := AddedMaterials(materials, name, count);
      var closed := if materials != [] && Last(materials).indexEnd == 0 then EndedMaterials(materials, count) else materials;
      && (count % 3 == 0 <==> |r| == |materials| + 1)
      && (count % 3 == 0 ==> r[..|materials|] == closed && Last(r) == MeshMaterial(name, count, 0))
      && (count % 3 != 0 ==> r == closed)
  {
    var closed := if materials != [] && Last(materials).indexEnd == 0 then EndedMaterials(materials, count) else materials;
    EndMaterialEffect(materials, count);
    var r := AddedMaterials(materials, name, count);
    if count % 3 == 0 {
      assert r == closed + [MeshMaterial(name, count, 0)];
      assert r[..|materials|] == closed;
    }
  }

  /** Every material starts at a triangle boundary no later than `count`; a closed one ends after it starts. */
  predicate MaterialsBounded(materials: seq<MeshMaterial>, count: nat) {
    && (forall j :: 0 <= j < |materials| ==> materials[j].indexStart % 3 == 0 && materials[j].indexStart <= count)
    && (forall j :: 0 <= j < |materials| && materials[j].indexEnd != 0 ==>
          materials[j].indexStart < materials[j].indexEnd <= count && materials[j].indexEnd % 3 == 0)
  }

  /**
   * What the builder keeps of the materials of a mesh with `count` indexes: a material before
   * the last is either closed no later than the next one starts, or open and empty, starting
   * where the next one starts (AddMaterial called again before any face was added).
   */
  predicate MaterialsWellFormed(materials: seq<MeshMaterial>, count: nat) {
    && MaterialsBounded(materials, count)
    && (forall j :: 0 <= j < |materials| - 1 ==>
          (materials[j].indexEnd != 0 && materials[j].indexEnd <= materials[j + 1].indexStart)
          || (materials[j].indexEnd == 0 && materials[j].indexStart == materials[j + 1].indexStart))
  }

  /** Like MaterialsWellFormed, with every material before the last closed. */
  predicate MaterialsSeparated(materials: seq<MeshMaterial>, count: nat) {
    && MaterialsBounded(materials, count)
    && (forall j :: 0 <= j < |materials| - 1 ==>
          materials[j].indexEnd != 0 && materials[j].indexEnd <= materials[j + 1].indexStart)
  }

  /** Adding indexes keeps the material invariants. */
  lemma IndexGrowthKeepsMaterials(materials: seq<MeshMaterial>, count: nat, count': nat)
    requires count <= count'
    ensures MaterialsWellFormed(materials, count) ==> MaterialsWellFormed(materials, count')
    ensures MaterialsSeparated(materials, count) ==> MaterialsSeparated(materials, count')
  {
  }

  /** EndMaterial keeps MaterialsWellFormed. */
  lemma EndMaterialKeepsWellFormed(materials: seq<MeshMaterial>, count: nat)
    requires MaterialsWellFormed(materials, count)
    ensures MaterialsWellFormed(EndedMaterials(materials, count), count)
  {
    EndMaterialEffect(materials, count);
    var e := EndedMaterials(materials, count);
    forall j | 0 <= j < |e| - 1
      ensures (e[j].indexEnd != 0 && e[j].indexEnd <= e[j + 1].indexStart)
           || (e[j].indexEnd == 0 && e[j].indexStart == e[j + 1].indexStart)
    {
      assert e[j] == materials[j];
      assert e[j + 1].indexStart == materials[j + 1].indexStart;
    }
  }

  /**
   * AddMaterial, as written, keeps MaterialsWellFormed: an open material it cannot close is
   * empty, so the new one starts where it does.
   */
  lemma AddMaterialKeepsWellFormed(materials: seq<MeshMaterial>, name: string, count: nat)
    requires MaterialsWellFormed(materials, count)
    ensures MaterialsWellFormed(AddedMaterials(materials, name, count), count)
  {
    EndMaterialKeepsWellFormed(materials, count);
    EndMaterialEffect(materials, count);
    var closed := if materials != [] && Last(materials).indexEnd == 0 then EndedMaterials(materials, count) else materials;
    assert MaterialsWellFormed(closed, count);
    if count % 3 == 0 {
      AppendOpenKeepsWellFormed(closed, name, count);
    }
  }

  /** Appending a new open material at `count` after one that is closed, or open and empty at `count`. */
  lemma AppendOpenKeepsWellFormed(closed: seq<MeshMaterial>, name: string, count: nat)
    requires MaterialsWellFormed(closed, count) && count % 3 == 0
    requires closed != [] && Last(closed).indexEnd == 0 ==> Last(closed).indexStart == count
    ensures MaterialsWellFormed(closed + [MeshMaterial(name, count, 0)], count)
  {
    var r := closed + [MeshMaterial(name, count, 0)];
    forall j | 0 <= j < |r| - 1
      ensures (r[j].indexEnd != 0 && r[j].indexEnd <= r[j + 1].indexStart)
           || (r[j].indexEnd == 0 && r[j].indexStart == r[j + 1].indexStart)
    {
      assert r[j] == closed[j];
      if j < |r| - 2 {
        assert r[j + 1] == closed[j + 1];
      }
    }
  }

  /** Appending a new open material at `count` after closed ones keeps them separated. */
  lemma AppendOpenKeepsSeparated(closed: seq<MeshMaterial>, name: string, count: nat)
    requires MaterialsSeparated(closed, count) && count % 3 == 0
    requires closed != [] ==> Last(closed).indexEnd != 0
    ensures MaterialsSeparated(closed + [MeshMaterial(name, count, 0)], count)
  {
    var r := closed + [MeshMaterial(name, count, 0)];
    forall j | 0 <= j < |r| - 1
      ensures r[j].indexEnd != 0 && r[j].indexEnd <= r[j + 1].indexStart
    {
      assert r[j] == closed[j];
      if j < |r| - 2 {
        assert r[j + 1] == closed[j + 1];
      }
    }
  }

  /** EndMaterial keeps MaterialsSeparated. */
  lemma EndMaterialKeepsSeparated(materials: seq<MeshMaterial>, count: nat)
    requires MaterialsSeparated(materials, count)
    ensures MaterialsSeparated(EndedMaterials(materials, count), count)
  {
    EndMaterialEffect(materials, count);
    var e := EndedMaterials(materials, count);
    forall j | 0 <= j < |e| - 1
      ensures e[j].indexEnd != 0 && e[j].indexEnd <= e[j + 1].indexStart
    {
      assert e[j] == materials[j];
      assert e[j + 1].indexStart == materials[j + 1].indexStart;
    }
  }

  /**
   * While the last material is open the mesh is not valid; once faces have been added after
   * AddMaterial, EndMaterial closes it and the mesh is valid again.
   */
  lemma OpenMaterialBlocksValidity(vertices: seq<Vector3D>, indexes: seq<nat>, materials: seq<MeshMaterial>,
                                   name: string, faces: seq<nat>)
    requires vertices != [] && |indexes| % 3 == 0 && |faces| % 3 == 0
    ensures !ValidMesh(vertices, indexes, AddedMaterials(materials, name, |indexes|))
    ensures faces != [] ==>
      ValidMesh(vertices, indexes + faces,
                EndedMaterials(AddedMaterials(materials, name, |indexes|), |indexes + faces|))
  {
    var n := |indexes|;
    AddMaterialEffect(materials, name, n);
    var r := AddedMaterials(materials, name, n);
    assert Last(r) == MeshMaterial(name, n, 0);
    if faces != [] {
      EndMaterialEffect(r, |indexes + faces|);
      var e := EndedMaterials(r, |indexes + faces|);
      assert e != r;
      assert Last(e).indexEnd == |indexes + faces|;
    }
  }

  // ---------------------------------------------------------------------------
  // A material added on top of an empty open one
  // ---------------------------------------------------------------------------

  /**
   * AddMaterial as evidently intended: an open material that no face has used yet (it starts
   * at the current index count) is replaced by the new one instead of being left open.
   */
  function AddedMaterialsIntended(materials: seq<MeshMaterial>, name: string, count: nat): (r: seq<MeshMaterial>)
    ensures !(materials != [] && Last(materials).indexEnd == 0 && Last(materials).indexStart == count) ==>
      r == AddedMaterials(materials, name, count)
  {
    var closed :=
      if materials != [] && Last(materials).indexEnd == 0 then
        if Last(materials).indexStart == count then materials[..|materials| - 1] else EndedMaterials(materials, count)
      else materials;
    if count % 3 != 0 then closed else closed + [MeshMaterial(name, count, 0)]
  }

  /** Dropping the last material keeps the others separated. */
  lemma SeparatedPrefix(materials: seq<MeshMaterial>, count: nat)
    requires materials != [] && MaterialsSeparated(materials, count)
    ensures MaterialsSeparated(materials[..|materials| - 1], count)
  {
  }

  /** The intended AddMaterial keeps every material but the last closed, so GenerateOBJ names each one. */
  lemma AddMaterialIntendedKeepsSeparated(materials: seq<MeshMaterial>, name: string, count: nat)
    requires MaterialsSeparated(materials, count)
    ensures MaterialsSeparated(AddedMaterialsIntended(materials, name, count), count)
  {
    EndMaterialEffect(materials, count);
    EndMaterialKeepsSeparated(materials, count);
    var dropLast := materials != [] && Last(materials).indexEnd == 0 && Last(materials).indexStart == count;
    var closed :=
      if materials != [] && Last(materials).indexEnd == 0 then
        if Last(materials).indexStart == count then materials[..|materials| - 1] else EndedMaterials(materials, count)
      else materials;
    if dropLast {
      SeparatedPrefix(materials, count);
    }
    assert MaterialsSeparated(closed, count);
    if count % 3 == 0 {
      if closed != [] && !dropLast && materials != [] && Last(materials).indexEnd == 0 {
        assert Last(materials).indexStart < count;
      }
      AppendOpenKeepsSeparated(closed, name, count);
    }
  }

  /**
   * As written: AddMaterial("a"), one triangle, AddMaterial("b"), AddMaterial("c"), one more
   * triangle and EndMaterial leave "b" open and empty between "a" and "c", and the face section
   * names "b" before the second triangle although the faces after AddMaterial("c") were meant
   * for "c". The cursor never passes "b", so no later material gets its own `usemtl` line. At
   * index count 0 the cursor would step over the empty material instead.
   */
  lemma AddMaterialTwiceMislabels()
    ensures var m1 := AddedMaterials([], "a", 0);
      var m2 := AddedMaterials(m1, "b", 3);
      var m3 := AddedMaterials(m2, "c", 3);
      var m := EndedMaterials(m3, 6);
      && m == [MeshMaterial("a", 0, 3), MeshMaterial("b", 3, 0), MeshMaterial("c", 3, 6)]
      && Faces([1, 2, 3, 2, 3, 4], m, 0, 0)[1].material == Some("b")
  {
    var m1 := AddedMaterials([], "a", 0);
    assert m1 == [MeshMaterial("a", 0, 0)];
    var m2 := AddedMaterials(m1, "b", 3);
    assert m2 == [MeshMaterial("a", 0, 3), MeshMaterial("b", 3, 0)];
    var m3 := AddedMaterials(m2, "c", 3);
    assert m3 == m2 + [MeshMaterial("c", 3, 0)];
    var m := EndedMaterials(m3, 6);
    assert m == [MeshMaterial("a", 0, 3), MeshMaterial("b", 3, 0), MeshMaterial("c", 3, 6)];
    var idx: seq<nat> := [1, 2, 3, 2, 3, 4];
    assert Faces(idx, m, 0, 0)[1..] == Faces(idx, m, 0, 3);
  }

  /** Intended: the same calls leave "a" and "c", and the second triangle is labelled "c". */
  lemma AddMaterialTwiceIntended()
    ensures var m1 := AddedMaterialsIntended([], "a", 0);
      var m2 := AddedMaterialsIntended(m1, "b", 3);
      var m3 := AddedMaterialsIntended(m2, "c", 3);
      var m := EndedMaterials(m3, 6);
      && m == [MeshMaterial("a", 0, 3), MeshMaterial("c", 3, 6)]
      && Faces([1, 2, 3, 2, 3, 4], m, 0, 0)[1].material == Some("c")
  {
    var m1 := AddedMaterialsIntended([], "a", 0);
    assert m1 == [MeshMaterial("a", 0, 0)];
    var m2 := AddedMaterialsIntended(m1, "b", 3);
    assert m2 == [MeshMaterial("a", 0, 3), MeshMaterial("b", 3, 0)];
    var m3 := AddedMaterialsIntended(m2, "c", 3);
    assert m2[..1] == [MeshMaterial("a", 0, 3)];
    assert m3 == [MeshMaterial("a", 0, 3), MeshMaterial("c", 3, 0)];
    var m := EndedMaterials(m3, 6);
    assert m == [MeshMaterial("a", 0, 3), MeshMaterial("c", 3, 6)];
    var idx: seq<nat> := [1, 2, 3, 2, 3, 4];
    assert Faces(idx, m, 0, 0)[1..] == Faces(idx, m, 0, 3);
  }

  // ---------------------------------------------------------------------------
  // OBJ text
  // ---------------------------------------------------------------------------

  /** One entry of the face section: an optional material switch and a triangle. */
  datatype FaceEntry = FaceEntry(material: Option<string>, a: nat, b: nat, c: nat)

  /** The material cursor after stepping past the material it is on, if that one ends at `counter`. */
  function NextCursor(materials: seq<MeshMaterial>, cursor: nat, counter: nat): nat {
    if cursor < |materials| && materials[cursor].indexEnd == counter then cursor + 1 else cursor
  }

  /**
   * The walk of GenerateOBJ's face loop from index offset `counter` with the material cursor
   * at `cursor`: first step past a material that ends here, then name a material that starts here.
   */
  function Faces(indexes: seq<nat>, materials: seq<MeshMaterial>, cursor: nat, counter: nat): (r: seq<FaceEntry>)
    requires |indexes| % 3 == 0 && counter % 3 == 0 && counter <= |indexes|
    ensures 3 * |r| == |indexes| - counter
    decreases |indexes| - counter
  {
    if counter == |indexes| then []
    else
      var cursor' := NextCursor(materials, cursor, counter);
      var use := if cursor' < |materials| && materials[cursor'].indexStart == counter
                 then Some(materials[cursor'].name) else None;
      [FaceEntry(use, indexes[counter], indexes[counter + 1], indexes[counter + 2])]
        + Faces(indexes, materials, cursor', counter + 3)
  }

  /** The name of the first material that starts at index offset `offset`, if any. */
  function MaterialStartingAt(materials: seq<MeshMaterial>, offset: nat): Option<string>
  {
    if materials == [] then None
    else if materials[0].indexStart == offset then Some(materials[0].name)
    else MaterialStartingAt(materials[1..], offset)
  }

  /** Face entry k holds the k-th index triple. */
  lemma {:induction false} FacesTriangle(indexes: seq<nat>, materials: seq<MeshMaterial>, cursor: nat, counter: nat, k: nat)
    requires |indexes| % 3 == 0 && counter % 3 == 0 && counter + 3 * k + 3 <= |indexes|
    ensures var e := Faces(indexes, materials, cursor, counter)[k];
      [e.a, e.b, e.c] == indexes[counter + 3 * k .. counter + 3 * k + 3]
    decreases k
  {
    if k > 0 {
      var cursor' := NextCursor(materials, cursor, counter);
      FacesTriangle(indexes, materials, cursor', counter + 3, k - 1);
    }
  }

  lemma MaterialStartingAtFirst(materials: seq<MeshMaterial>, offset: nat, j: nat)
    requires j < |materials| && materials[j].indexStart == offset
    requires forall i :: 0 <= i < j ==> materials[i].indexStart != offset
    ensures MaterialStartingAt(materials, offset) == Some(materials[j].name)
  {
    if j > 0 {
      MaterialStartingAtFirst(materials[1..], offset, j - 1);
    }
  }

  lemma MaterialStartingAtNone(materials: seq<MeshMaterial>, offset: nat)
    requires forall i :: 0 <= i < |materials| ==> materials[i].indexStart != offset
    ensures MaterialStartingAt(materials, offset) == None
  {
    if materials != [] {
      MaterialStartingAtNone(materials[1..], offset);
    }
  }

  /** In separated, all-closed materials, every material ends no later than any later one starts. */
  lemma {:induction false} SeparatedOrdered(materials: seq<MeshMaterial>, count: nat, i: nat, j: nat)
    requires MaterialsSeparated(materials, count) && i < j < |materials|
    ensures materials[i].indexEnd <= materials[j].indexStart
    decreases j - i
  {
    if i + 1 < j {
      SeparatedOrdered(materials, count, i + 1, j);
      assert materials[i + 1].indexStart < materials[i + 1].indexEnd;
    }
  }

  /** The cursor invariant of the face loop over separated, all-closed materials, at offset `counter`. */
  ghost predicate CursorAt(materials: seq<MeshMaterial>, cursor: nat, counter: nat) {
    && cursor <= |materials|
    && (forall j :: 0 <= j < cursor ==> materials[j].indexEnd <= counter)
    && (cursor < |materials| ==> materials[cursor].indexEnd >= counter)
  }

  /** Separated materials whose last one is closed are all closed. */
  lemma SeparatedAllClosed(materials: seq<MeshMaterial>, count: nat, j: nat)
    requires MaterialsSeparated(materials, count)
    requires materials != [] ==> Last(materials).indexEnd != 0
    requires j < |materials|
    ensures materials[j].indexStart < materials[j].indexEnd <= count && materials[j].indexEnd % 3 == 0
  {
    if j < |materials| - 1 {
      assert materials[j].indexEnd != 0;
    }
  }

  /** The loop's first step past a material ending at `counter` leaves the cursor on the material ending after it. */
  lemma CursorStep(materials: seq<MeshMaterial>, count: nat, cursor: nat, counter: nat)
    requires MaterialsSeparated(materials, count)
    requires materials != [] ==> Last(materials).indexEnd != 0
    requires CursorAt(materials, cursor, counter)
    ensures var cursor' := NextCursor(materials, cursor, counter);
      && cursor' <= |materials|
      && (forall j :: 0 <= j < cursor' ==> materials[j].indexEnd <= counter)
      && (cursor' < |materials| ==> materials[cursor'].indexEnd > counter)
  {
    var cursor' := NextCursor(materials, cursor, counter);
    if cursor' < |materials| {
      SeparatedAllClosed(materials, count, cursor');
      if cursor' > cursor {
        SeparatedOrdered(materials, count, cursor, cursor');
      }
    }
  }

  /** With every earlier material ended and the cursor's one ending later, the cursor's material is the one starting here, if any. */
  lemma CursorNamesMaterial(materials: seq<MeshMaterial>, count: nat, cursor: nat, counter: nat)
    requires MaterialsSeparated(materials, count)
    requires materials != [] ==> Last(materials).indexEnd != 0
    requires cursor <= |materials|
    requires forall j :: 0 <= j < cursor ==> materials[j].indexEnd <= counter
    requires cursor < |materials| ==> materials[cursor].indexEnd > counter
    ensures (if cursor < |materials| && materials[cursor].indexStart == counter
             then Some(materials[cursor].name) else None) == MaterialStartingAt(materials, counter)
  {
    forall i | 0 <= i < cursor ensures materials[i].indexStart != counter {
      SeparatedAllClosed(materials, count, i);
    }
    if cursor < |materials| && materials[cursor].indexStart == counter {
      MaterialStartingAtFirst(materials, counter, cursor);
    } else {
      forall i | cursor < i < |materials| ensures materials[i].indexStart != counter {
        SeparatedOrdered(materials, count, cursor, i);
      }
      MaterialStartingAtNone(materials, counter);
    }
  }

  /** After the step, the cursor invariant holds at the next triangle. */
  lemma CursorAdvance(materials: seq<MeshMaterial>, count: nat, cursor: nat, counter: nat)
    requires MaterialsSeparated(materials, count)
    requires materials != [] ==> Last(materials).indexEnd != 0
    requires counter % 3 == 0 && cursor <= |materials|
    requires forall j :: 0 <= j < cursor ==> materials[j].indexEnd <= counter
    requires cursor < |materials| ==> materials[cursor].indexEnd > counter
    ensures CursorAt(materials, cursor, counter + 3)
  {
    if cursor < |materials| {
      SeparatedAllClosed(materials, count, cursor);
    }
  }

  /** Entry 0 of the walk is this triangle's entry. */
  lemma FacesHead(indexes: seq<nat>, materials: seq<MeshMaterial>, cursor: nat, counter: nat)
    requires |indexes| % 3 == 0 && counter % 3 == 0 && counter + 3 <= |indexes|
    ensures var cursor' := NextCursor(materials, cursor, counter);
      var use := if cursor' < |materials| && materials[cursor'].indexStart == counter
                 then Some(materials[cursor'].name) else None;
      Faces(indexes, materials, cursor, counter)[0]
        == FaceEntry(use, indexes[counter], indexes[counter + 1], indexes[counter + 2])
  {
  }

  /** Entry k > 0 of the walk is entry k - 1 of the walk from the next triangle. */
  lemma FacesTail(indexes: seq<nat>, materials: seq<MeshMaterial>, cursor: nat, counter: nat, k: nat)
    requires |indexes| % 3 == 0 && counter % 3 == 0 && counter + 3 * k + 3 <= |indexes| && k > 0
    ensures Faces(indexes, materials, cursor, counter)[k]
         == Faces(indexes, materials, NextCursor(materials, cursor, counter), counter + 3)[k - 1]
  {
  }

  /** One turn of the face loop keeps the cursor invariant. */
  lemma CursorNext(materials: seq<MeshMaterial>, count: nat, cursor: nat, counter: nat)
    requires MaterialsSeparated(materials, count)
    requires materials != [] ==> Last(materials).indexEnd != 0
    requires counter % 3 == 0 && CursorAt(materials, cursor, counter)
    ensures var cursor' := NextCursor(materials, cursor, counter);
      CursorAt(materials, cursor', counter + 3)
  {
    var cursor' := NextCursor(materials, cursor, counter);
    CursorStep(materials, count, cursor, counter);
    CursorAdvance(materials, count, cursor', counter);
  }

  /** Under the cursor invariant, the entry for the triangle at `counter` names the material starting there, if any. */
  lemma FacesMaterialHere(indexes: seq<nat>, materials: seq<MeshMaterial>, cursor: nat, counter: nat)
    requires |indexes| % 3 == 0 && counter % 3 == 0 && counter + 3 <= |indexes|
    requires MaterialsSeparated(materials, |indexes|)
    requires materials != [] ==> Last(materials).indexEnd != 0
    requires CursorAt(materials, cursor, counter)
    ensures Faces(indexes, materials, cursor, counter)[0].material == MaterialStartingAt(materials, counter)
  {
    var cursor' := NextCursor(materials, cursor, counter);
    FacesHead(indexes, materials, cursor, counter);
    CursorStep(materials, |indexes|, cursor, counter);
    CursorNamesMaterial(materials, |indexes|, cursor', counter);
  }

  lemma {:induction false} FacesMaterialFrom(indexes: seq<nat>, materials: seq<MeshMaterial>, cursor: nat, counter: nat, k: nat)
    requires |indexes| % 3 == 0 && counter % 3 == 0 && counter + 3 * k + 3 <= |indexes|
    requires MaterialsSeparated(materials, |indexes|)
    requires materials != [] ==> Last(materials).indexEnd != 0
    requires CursorAt(materials, cursor, counter)
    ensures Faces(indexes, materials, cursor, counter)[k].material == MaterialStartingAt(materials, counter + 3 * k)
    decreases k
  {
    if k == 0 {
      FacesMaterialHere(indexes, materials, cursor, counter);
    } else {
      var cursor' := NextCursor(materials, cursor, counter);
      FacesTail(indexes, materials, cursor, counter, k);
      CursorNext(materials, |indexes|, cursor, counter);
      FacesMaterialFrom(indexes, materials, cursor', counter + 3, k - 1);
    }
  }

  /**
   * For a valid mesh whose materials are separated, the face section names a material before
   * triangle k exactly when a material starts at index offset 3 k, and it names that one.
   */
  lemma FacesMaterialLines(indexes: seq<nat>, materials: seq<MeshMaterial>, k: nat)
    requires |indexes| % 3 == 0 && 3 * k + 3 <= |indexes|
    requires MaterialsSeparated(materials, |indexes|)
    requires materials != [] ==> Last(materials).indexEnd != 0
    ensures Faces(indexes, materials, 0, 0)[k].material == MaterialStartingAt(materials, 3 * k)
  {
    FacesMaterialFrom(indexes, materials, 0, 0, k);
  }

  /** `out` followed by the text of one face entry: an optional `usemtl` line after a blank one, then `f a b c`. */
  function WriteFaceEntry(out: string, e: FaceEntry): string {
    var o := if e.material.Some? then out + UseLine(e.material.value) else out;
    o + FaceLine(e.a, e.b, e.c)
  }

  /** The line that switches to a material: `usemtl name`, after an empty line. */
  function UseLine(name: string): string {
    "\nusemtl " + name + "\n"
  }

  /** One triangle line: `f a b c`, the indexes in decimal. */
  function FaceLine(a: nat, b: nat, c: nat): string {
    "f " + Decimal.NatToString(a) + " " + Decimal.NatToString(b) + " " + Decimal.NatToString(c) + "\n"
  }

  /** `out` followed by the text of the entries, in order. */
  function WriteFaceEntries(out: string, entries: seq<FaceEntry>): string
    decreases |entries|
  {
    if entries == [] then out else WriteFaceEntries(WriteFaceEntry(out, entries[0]), entries[1..])
  }

  /** Writing face entries only appends to what was written before. */
  lemma {:induction false} WriteFaceEntriesExtends(out: string, entries: seq<FaceEntry>)
    ensures out <= WriteFaceEntries(out, entries)
    decreases |entries|
  {
    if entries != [] {
      var o := WriteFaceEntry(out, entries[0]);
      assert out <= o;
      WriteFaceEntriesExtends(o, entries[1..]);
    }
  }

  /** One turn of the face loop: the walk from here is this turn's entry followed by the walk from the next triangle. */
  lemma FacesStep(indexes: seq<nat>, materials: seq<MeshMaterial>, cursor: nat, counter: nat, out: string)
    requires |indexes| % 3 == 0 && counter % 3 == 0 && counter < |indexes|
    ensures var cursor' := NextCursor(materials, cursor, counter);
      var use := if cursor' < |materials| && materials[cursor'].indexStart == counter
                 then Some(materials[cursor'].name) else None;
      WriteFaceEntries(out, Faces(indexes, materials, cursor, counter))
        == WriteFaceEntries(WriteFaceEntry(out, FaceEntry(use, indexes[counter], indexes[counter + 1], indexes[counter + 2])),
                            Faces(indexes, materials, cursor', counter + 3))
  {
    var f := Faces(indexes, materials, cursor, counter);
    assert f[1..] == Faces(indexes, materials, NextCursor(materials, cursor, counter), counter + 3);
  }

  const VertexHeader := "# List of geometric vertices, with (x, y, z) coordinates.\n"
  const UVHeader := "\n# List of texture coordinates, in (u, v) coordinates.\n"
  const NormalHeader := "\n# List of vertex normals in (x, y, z) form; normals might not be unit vectors.\n"
  const FaceHeader := "\n# Polygonal face element.\n"

  /** One vertex line: `v x y z`. */
  function VertexLine(v: Vector3D, num: real -> string): string {
    "v " + num(v.x) + " " + num(v.y) + " " + num(v.z) + "\n"
  }

  function VertexLines(vs: seq<Vector3D>, num: real -> string): string {
    if vs == [] then "" else VertexLines(vs[..|vs| - 1], num) + VertexLine(Last(vs), num)
  }

  /** One texture coordinate line: `vt x y`. */
  function UVLine(vt: Vector2D, num: real -> string): string {
    "vt " + num(vt.x) + " " + num(vt.y) + "\n"
  }

  function UVLines(uvs: seq<Vector2D>, num: real -> string): string {
    if uvs == [] then "" else UVLines(uvs[..|uvs| - 1], num) + UVLine(Last(uvs), num)
  }

  /** One normal line: `vn x y z`. */
  function NormalLine(vn: Vector3D, num: real -> string): string {
    "vn " + num(vn.x) + " " + num(vn.y) + " " + num(vn.z) + "\n"
  }

  function NormalLines(ns: seq<Vector3D>, num: real -> string): string {
    if ns == [] then "" else NormalLines(ns[..|ns| - 1], num) + NormalLine(Last(ns), num)
  }

  /**
   * The OBJ text of a mesh: empty when it is not valid; otherwise the vertices, then the UV and
   * normal sections when there are any, then the faces when there are indexes. `num` is the
   * fixed-point text of a coordinate, which this model leaves open.
   */
  function ObjText(vertices: seq<Vector3D>, uvs: seq<Vector2D>, normals: seq<Vector3D>,
                   indexes: seq<nat>, materials: seq<MeshMaterial>, num: real -> string): string
  {
    if !ValidMesh(vertices, indexes, materials) then ""
    else
      var vs := VertexHeader + VertexLines(vertices, num);
      var vts := if uvs == [] then vs else vs + UVHeader + UVLines(uvs, num);
      var head := if normals == [] then vts else vts + NormalHeader + NormalLines(normals, num);
      if indexes == [] then head
      else WriteFaceEntries(head + FaceHeader, Faces(indexes, materials, 0, 0))
  }

  /** A mesh produces OBJ text exactly when it is valid. */
  lemma ObjTextEmptyIffInvalid(vertices: seq<Vector3D>, uvs: seq<Vector2D>, normals: seq<Vector3D>,
                               indexes: seq<nat>, materials: seq<MeshMaterial>, num: real -> string)
    ensures ObjText(vertices, uvs, normals, indexes, materials, num) == "" <==> !ValidMesh(vertices, indexes, materials)
  {
    if ValidMesh(vertices, indexes, materials) {
      var t := ObjText(vertices, uvs, normals, indexes, materials, num);
      var vs := VertexHeader + VertexLines(vertices, num);
      var vts := if uvs == [] then vs else vs + UVHeader + UVLines(uvs, num);
      var head := if normals == [] then vts else vts + NormalHeader + NormalLines(normals, num);
      assert |VertexHeader| <= |vs| <= |vts| <= |head|;
      if indexes != [] {
        WriteFaceEntriesExtends(head + FaceHeader, Faces(indexes, materials, 0, 0));
      }
      assert |head| <= |t|;
    }
  }

  // The loops of GenerateOBJ, one per section.

  method WriteVertices(out: string, vertices: seq<Vector3D>, num: real -> string) returns (r: string)
    ensures r == out + VertexLines(vertices, num)
  {
    r := out;
    for i := 0 to |vertices|
      invariant r == out + VertexLines(vertices[..i], num)
    {
      assert vertices[..i + 1][..i] == vertices[..i];
      assert VertexLines(vertices[..i + 1], num) == VertexLines(vertices[..i], num) + VertexLine(vertices[i], num);
      r := r + VertexLine(vertices[i], num);
    }
    assert vertices[..|vertices|] == vertices;
  }

  method WriteUVs(out: string, uvs: seq<Vector2D>, num: real -> string) returns (r: string)
    ensures r == out + UVLines(uvs, num)
  {
    r := out;
    for i := 0 to |uvs|
      invariant r == out + UVLines(uvs[..i], num)
    {
      assert uvs[..i + 1][..i] == uvs[..i];
      assert UVLines(uvs[..i + 1], num) == UVLines(uvs[..i], num) + UVLine(uvs[i], num);
      r := r + UVLine(uvs[i], num);
    }
    assert uvs[..|uvs|] == uvs;
  }

  method WriteNormals(out: string, normals: seq<Vector3D>, num: real -> string) returns (r: string)
    ensures r == out + NormalLines(normals, num)
  {
    r := out;
    for i := 0 to |normals|
      invariant r == out + NormalLines(normals[..i], num)
    {
      assert normals[..i + 1][..i] == normals[..i];
      assert NormalLines(normals[..i + 1], num) == NormalLines(normals[..i], num) + NormalLine(normals[i], num);
      r := r + NormalLine(normals[i], num);
    }
    assert normals[..|normals|] == normals;
  }

  /** Writes the three indexes of one triangle, one at a time. */
  method WriteFaceLine(out: string, indexes: seq<nat>, it: nat) returns (r: string)
    requires it + 3 <= |indexes|
    ensures r == out + FaceLine(indexes[it], indexes[it + 1], indexes[it + 2])
  {
    var i := it;
    r := out + "f " + Decimal.NatToString(indexes[i]);
    i := i + 1;
    r := r + " " + Decimal.NatToString(indexes[i]);
    i := i + 1;
    r := r + " " + Decimal.NatToString(indexes[i]) + "\n";
  }

  /** Below a multiple of 3, a multiple of 3 leaves room for a whole triple. */
  lemma NextTriple(faces: nat, count: nat)
    requires count % 3 == 0 && 3 * faces < count
    ensures 3 * faces + 3 <= count && (3 * faces) % 3 == 0
  {
  }

  /** The face loop: walks the index triples and the material cursor together. */
  method WriteFaces(out: string, indexes: seq<nat>, materials: seq<MeshMaterial>) returns (r: string)
    requires |indexes| % 3 == 0
    ensures r == WriteFaceEntries(out, Faces(indexes, materials, 0, 0))
  {
    r := out;
    var itM := 0;
    var it := 0;
    var indexCounter := 0;
    ghost var faces: nat := 0;
    while it != |indexes|
      invariant it == indexCounter == 3 * faces && indexCounter <= |indexes|
      invariant WriteFaceEntries(r, Faces(indexes, materials, itM, indexCounter))
             == WriteFaceEntries(out, Faces(indexes, materials, 0, 0))
      decreases |indexes| - it
    {
      NextTriple(faces, |indexes|);
      assert it + 3 <= |indexes| && indexCounter % 3 == 0;
      FacesStep(indexes, materials, itM, indexCounter, r);
      ghost var before, cursor := r, itM;
      ghost var a, b, c := indexes[it], indexes[it + 1], indexes[it + 2];
      if itM < |materials| && materials[itM].indexEnd == indexCounter {
        itM := itM + 1;
      }
      assert itM == NextCursor(materials, cursor, indexCounter);
      ghost var use: Option<string> := None;
      if itM < |materials| && materials[itM].indexStart == indexCounter {
        r := r + UseLine(materials[itM].name);
        use := Some(materials[itM].name);
      }
      assert use == if itM < |materials| && materials[itM].indexStart == indexCounter then Some(materials[itM].name) else None;
      ghost var e := FaceEntry(use, a, b, c);
      r := WriteFaceLine(r, indexes, it);
      it := it + 3;
      assert r == WriteFaceEntry(before, e);
      indexCounter := indexCounter + 3;
      faces := faces + 1;
    }
  }

  // ---------------------------------------------------------------------------
  // The mesh object
  // ---------------------------------------------------------------------------

  class Mesh {
    var vertices: seq<Vector3D>
    var normals: seq<Vector3D>
    var indexes: seq<nat>
    var uvs: seq<Vector2D>
    var materials: seq<MeshMaterial>

    constructor ()
      ensures vertices == [] && normals == [] && indexes == [] && uvs == [] && materials == []
    {
      vertices, normals, indexes, uvs, materials := [], [], [], [], [];
    }

    function GetVerticesNum(): nat
      reads this
    {
      |vertices|
    }

    predicate IsValid()
      reads this
    {
      ValidMesh(vertices, indexes, materials)
    }

    method AddVertex(vertex: Vector3D)
      modifies this
      ensures vertices == old(vertices) + [vertex]
      ensures normals == old(normals) && indexes == old(indexes) && uvs == old(uvs) && materials == old(materials)
    {
      vertices := vertices + [vertex];
    }

    method AddVertices(vs: seq<Vector3D>)
      modifies this
      ensures vertices == old(vertices) + vs
      ensures normals == old(normals) && indexes == old(indexes) && uvs == old(uvs) && materials == old(materials)
    {
      vertices := vertices + vs;
    }

    method AddNormal(normal: Vector3D)
      modifies this
      ensures normals == old(normals) + [normal]
      ensures vertices == old(vertices) && indexes == old(indexes) && uvs == old(uvs) && materials == old(materials)
    {
      normals := normals + [normal];
    }

    method AddIndex(index: nat)
      modifies this
      ensures indexes == old(indexes) + [index]
      ensures vertices == old(vertices) && normals == old(normals) && uvs == old(uvs) && materials == old(materials)
    {
      indexes := indexes + [index];
    }

    method AddUV(uv: Vector2D)
      modifies this
      ensures uvs == old(uvs) + [uv]
      ensures vertices == old(vertices) && normals == old(normals) && indexes == old(indexes) && materials == old(materials)
    {
      uvs := uvs + [uv];
    }

    method AddUVs(uv: seq<Vector2D>)
      modifies this
      ensures uvs == old(uvs) + uv
      ensures vertices == old(vertices) && normals == old(normals) && indexes == old(indexes) && materials == old(materials)
    {
      uvs := uvs + uv;
    }

    /** The body of the strip loop: the triangle around vertex `i` in the winding `clockwise` selects. */
    method AddStripTriangle(i: nat, clockwise: bool)
      requires i >= 1
      modifies this
      ensures indexes == old(indexes) + StripTriangle(i, clockwise)
      ensures vertices == old(vertices) && normals == old(normals) && uvs == old(uvs) && materials == old(materials)
    {
      if clockwise {
        AddIndex(i + 1);
        AddIndex(i);
        AddIndex(i - 1);
      } else {
        AddIndex(i - 1);
        AddIndex(i);
        AddIndex(i + 1);
      }
    }

    /** Appends the vertices and one triangle per vertex from the third on, alternating the winding. */
    method AddTriangleStrip(vs: seq<Vector3D>)
      modifies this
      ensures vertices == old(vertices) + vs
      ensures indexes == old(indexes) + StripIndexes(|old(vertices)|, |vs|)
      ensures normals == old(normals) && uvs == old(uvs) && materials == old(materials)
    {
      if |vs| == 0 {
        return;
      }
      ghost var v0 := |vertices|;
      var i := GetVerticesNum() + 2;
      AddVertices(vs);
      var clockwise := true;
      ghost var n: nat := 2;
      while i < GetVerticesNum()
        invariant i == v0 + n && 2 <= n && (n <= |vs| || n == 2)
        invariant vertices == old(vertices) + vs
        invariant indexes == old(indexes) + StripIndexes(v0, n)
        invariant clockwise == !StripClockwise(n + 1)
        invariant normals == old(normals) && uvs == old(uvs) && materials == old(materials)
      {
        clockwise := !clockwise;
        AddStripTriangle(i, clockwise);
        StripIndexesStep(old(indexes), v0, n + 1);
        i := i + 1;
        n := n + 1;
      }
      assert n == |vs| || (|vs| == 1 && StripIndexes(v0, n) == [] == StripIndexes(v0, |vs|));
    }

    /** Appends the vertices and one triangle around the first of them for each later pair. */
    method AddTriangleFan(vs: seq<Vector3D>)
      modifies this
      ensures vertices == old(vertices) + vs
      ensures indexes == old(indexes) + FanIndexes(|old(vertices)|, |vs|)
      ensures normals == old(normals) && uvs == old(uvs) && materials == old(materials)
    {
      ghost var v0 := |vertices|;
      var initialIndex := GetVerticesNum() + 1;
      var i := GetVerticesNum() + 2;
      AddVertices(vs);
      while i < GetVerticesNum()
        invariant v0 + 2 <= i && (i <= v0 + |vs| || |vs| < 2)
        invariant vertices == old(vertices) + vs
        invariant indexes == old(indexes) + FanIndexes(v0, if |vs| < 2 then 0 else i - v0)
        invariant normals == old(normals) && uvs == old(uvs) && materials == old(materials)
      {
        AddIndex(initialIndex);
        AddIndex(i);
        AddIndex(i + 1);
        i := i + 1;
      }
    }

    /** Closes the last material at the current index count, when it is open, non-empty and whole. */
    method EndMaterial()
      modifies this
      ensures materials == EndedMaterials(old(materials), |indexes|)
      ensures vertices == old(vertices) && normals == old(normals) && indexes == old(indexes) && uvs == old(uvs)
    {
      var closeIndex := |indexes|;
      if materials == [] || Last(materials).indexStart == closeIndex || Last(materials).indexEnd != 0 {
        return;
      }
      if indexes == [] || closeIndex % 3 != 0 {
        return;
      }
      materials := materials[..|materials| - 1] + [Last(materials).(indexEnd := closeIndex)];
    }

    /** Closes an open last material, then opens `name` at the current index count if that is whole. */
    method AddMaterial(name: string)
      modifies this
      ensures materials == AddedMaterials(old(materials), name, |indexes|)
      ensures vertices == old(vertices) && normals == old(normals) && indexes == old(indexes) && uvs == old(uvs)
    {
      var openIndex := |indexes|;
      if materials != [] {
        if Last(materials).indexEnd == 0 {
          EndMaterial();
        }
      }
      if openIndex % 3 != 0 {
        return;
      }
      materials := materials + [MeshMaterial(name, openIndex, 0)];
    }

    /** The OBJ text of this mesh; `num` writes one coordinate in fixed-point notation. */
    method GenerateOBJ(num: real -> string) returns (out: string)
      ensures out == ObjText(vertices, uvs, normals, indexes, materials, num)
    {
      if !IsValid() {
        return "";
      }
      out := VertexHeader;
      out := WriteVertices(out, vertices, num);
      if uvs != [] {
        out := out + UVHeader;
        out := WriteUVs(out, uvs, num);
      }
      if normals != [] {
        out := out + NormalHeader;
        out := WriteNormals(out, normals, num);
      }
      if indexes != [] {
        out := out + FaceHeader;
        out := WriteFaces(out, indexes, materials);
      }
    }
  }
}
