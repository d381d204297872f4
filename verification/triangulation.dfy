/** Geometry::Triangulate (AttoMath.cpp): ear clipping over a working copy of a
    polygon's vertex list, writing whole triangles into a caller's buffer.
    The clockwise sort that precedes it (an atan2 comparison sort) is taken as
    an arbitrary permutation supplied by the caller. */
module Triangulation {
  import opened Wrappers
  import opened AttoMath

  /** The ear test: `Determinant(v[i+2] - v[i+1], v[i+1] - v[i]) < 0`. */
  predicate IsEar(verts: seq<Vec2>, i: nat)
    requires i + 2 < |verts|
  {
    Determinant(verts[i + 2].Minus(verts[i + 1]), verts[i + 1].Minus(verts[i])) < 0.0
  }

  /** The lowest index at or after `from` whose consecutive triple is an ear. */
  function FirstEarFrom(verts: seq<Vec2>, from: nat): (r: Option<nat>)
    decreases |verts| - from
    ensures r.Some? ==> from <= r.value && r.value + 2 < |verts| && IsEar(verts, r.value)
    ensures r.Some? ==> forall j :: from <= j < r.value ==> !IsEar(verts, j)
    ensures r.None? ==> forall j :: from <= j && j + 2 < |verts| ==> !IsEar(verts, j)
  {
    if from + 2 >= |verts| then None
    else if IsEar(verts, from) then Some(from)
    else FirstEarFrom(verts, from + 1)
  }

  function RemoveAt(s: seq<Vec2>, k: nat): (r: seq<Vec2>)
    requires k < |s|
    ensures |r| == |s| - 1
  {
    s[..k] + s[k + 1..]
  }

  /** How the clipping loop ends: every ear emitted, or the buffer would overflow. */
  datatype ClipOutcome = Complete(emitted: seq<Vec2>) | OutOfSpace

  /** The clipping loop: take the first ear, give up if its triangle does not fit,
      otherwise emit it, drop its middle vertex and go on; stop when no ear is left. */
  function Clip(verts: seq<Vec2>, emitted: seq<Vec2>, capacity: int): ClipOutcome
    decreases |verts|
  {
    match FirstEarFrom(verts, 0)
    case None => Complete(emitted)
    case Some(i) =>
      if |emitted| + 3 > capacity then OutOfSpace
      else Clip(RemoveAt(verts, i + 1), emitted + [verts[i], verts[i + 1], verts[i + 2]], capacity)
  }

  /** Every triangle emitted after position `from` (a multiple of 3) is an ear. */
  ghost predicate TrianglesAreEars(e: seq<Vec2>, from: nat) {
    forall k :: from <= 3 * k && 3 * k + 2 < |e| ==>
      Determinant(e[3 * k + 2].Minus(e[3 * k + 1]), e[3 * k + 1].Minus(e[3 * k])) < 0.0
  }

  /** One step of the loop: the first ear fits, so the outcome is that of the
      shortened working list with the ear's triangle appended. */
  lemma ClipStep(verts: seq<Vec2>, emitted: seq<Vec2>, capacity: int, i: nat)
    requires FirstEarFrom(verts, 0) == Some(i) && |emitted| + 3 <= capacity
    ensures Clip(verts, emitted, capacity)
      == Clip(RemoveAt(verts, i + 1), emitted + [verts[i], verts[i + 1], verts[i + 2]], capacity)
  {
  }

  /** The loop only appends whole triangles, at most one per removable vertex,
      and never writes past the capacity. */
  lemma {:induction false} ClipCount(verts: seq<Vec2>, emitted: seq<Vec2>, capacity: int)
    requires |verts| >= 2
    ensures Clip(verts, emitted, capacity).Complete? ==>
      var e := Clip(verts, emitted, capacity).emitted;
      && |emitted| <= |e|
      && e[..|emitted|] == emitted
      && (|e| - |emitted|) % 3 == 0
      && |e| <= |emitted| + 3 * (|verts| - 2)
      && (|e| > |emitted| ==> |e| <= capacity)
    decreases |verts|
  {
    match FirstEarFrom(verts, 0)
    case None =>
    case Some(i) =>
      if |emitted| + 3 <= capacity {
        var rest := RemoveAt(verts, i + 1);
        var next := emitted + [verts[i], verts[i + 1], verts[i + 2]];
        ClipStep(verts, emitted, capacity, i);
        ClipCount(rest, next, capacity);
        if Clip(verts, emitted, capacity).Complete? {
          var e := Clip(rest, next, capacity).emitted;
          assert e[..|emitted|] == e[..|next|][..|emitted|];
          ThreeMore(|e|, |next|, |emitted|);
        }
      }
  }

  /** A multiple of three more than b, which is three more than c, is a
      multiple of three more than c. */
  lemma ThreeMore(a: int, b: int, c: int)
    requires (a - b) % 3 == 0 && b == c + 3
    ensures (a - c) % 3 == 0
  {
  }

  /** Every triangle the loop appends is an ear of the working list it came from. */
  lemma {:induction false} ClipEmitsEars(verts: seq<Vec2>, emitted: seq<Vec2>, capacity: int)
    requires |verts| >= 2 && |emitted| % 3 == 0
    ensures Clip(verts, emitted, capacity).Complete? ==>
      TrianglesAreEars(Clip(verts, emitted, capacity).emitted, |emitted|)
    decreases |verts|
  {
    match FirstEarFrom(verts, 0)
    case None =>
    case Some(i) =>
      if |emitted| + 3 <= capacity {
        var rest := RemoveAt(verts, i + 1);
        var next := emitted + [verts[i], verts[i + 1], verts[i + 2]];
        ClipStep(verts, emitted, capacity, i);
        ClipEmitsEars(rest, next, capacity);
        ClipCount(rest, next, capacity);
        if Clip(rest, next, capacity).Complete? {
          var e := Clip(rest, next, capacity).emitted;
          forall k | |emitted| <= 3 * k && 3 * k + 2 < |e|
            ensures Determinant(e[3 * k + 2].Minus(e[3 * k + 1]), e[3 * k + 1].Minus(e[3 * k])) < 0.0
          {
            if 3 * k < |next| {
              OnlyMultipleBetween(|emitted|, k);
              assert e[..|next|] == next;
              assert e[3 * k] == next[3 * k] && e[3 * k + 1] == next[3 * k + 1] && e[3 * k + 2] == next[3 * k + 2];
              assert IsEar(verts, i);
            }
          }
        }
      }
  }

  /** The only multiple of three in [a, a + 3), when a is one, is a itself. */
  lemma OnlyMultipleBetween(a: nat, k: nat)
    requires a % 3 == 0 && a <= 3 * k < a + 3
    ensures 3 * k == a
  {
    var m := a / 3;
    assert a == 3 * m;
  }

  /** Every vertex the loop appends is a vertex of the working list it started from. */
  lemma {:induction false} ClipEmitsInputVertices(verts: seq<Vec2>, emitted: seq<Vec2>, capacity: int)
    requires |verts| >= 2
    ensures Clip(verts, emitted, capacity).Complete? ==>
      var e := Clip(verts, emitted, capacity).emitted;
      |emitted| <= |e| && forall k :: |emitted| <= k < |e| ==> e[k] in verts
    decreases |verts|
  {
    ClipCount(verts, emitted, capacity);
    match FirstEarFrom(verts, 0)
    case None =>
    case Some(i) =>
      if |emitted| + 3 <= capacity {
        var rest := RemoveAt(verts, i + 1);
        var next := emitted + [verts[i], verts[i + 1], verts[i + 2]];
        ClipStep(verts, emitted, capacity, i);
        ClipEmitsInputVertices(rest, next, capacity);
        ClipCount(rest, next, capacity);
        if Clip(rest, next, capacity).Complete? {
          var e := Clip(rest, next, capacity).emitted;
          forall k | |emitted| <= k < |e| ensures e[k] in verts {
            if k < |next| {
              assert e[..|next|] == next;
              assert e[k] == next[k];
            } else {
              assert e[k] in rest;
              assert rest == verts[..i + 1] + verts[i + 2..];
            }
          }
        }
      }
  }

  /** Geometry::Triangulate. `sorted` is what the clockwise sort made of the
      polygon's vertices (any permutation of them). Fewer than three vertices give
      0; exactly three are copied out as one triangle; otherwise the result is the
      clipping loop's count, or 0 when a triangle would not have fit. */
  method Triangulate(poly: Polygon, sorted: seq<Vec2>, outVertices: array<Vec2>, outVerticesCapacity: int)
    returns (count: int)
    requires multiset(sorted) == multiset(poly.vertices)
    requires 3 <= outVertices.Length && outVerticesCapacity <= outVertices.Length
    modifies outVertices
    ensures |poly.vertices| < 3 ==> count == 0
    ensures |poly.vertices| == 3 ==> count == 3 && outVertices[..3] == sorted
    ensures |poly.vertices| > 3 ==>
      match Clip(sorted, [], outVerticesCapacity)
      case OutOfSpace => count == 0
      case Complete(e) => count == |e| && count <= outVertices.Length && outVertices[..count] == e
  {
    if |poly.vertices| < 3 {
      return 0;
    }
    assert |sorted| == |poly.vertices| by {
      assert |multiset(sorted)| == |multiset(poly.vertices)|;
    }

    var verts := sorted;
    var outVertexIndex := 0;
    if |verts| == 3 {
      outVertices[outVertexIndex] := verts[0];
      outVertexIndex := outVertexIndex + 1;
      outVertices[outVertexIndex] := verts[1];
      outVertexIndex := outVertexIndex + 1;
      outVertices[outVertexIndex] := verts[2];
      assert outVertices[..3] == sorted;
      return 3;
    }

    ghost var target := Clip(sorted, [], outVerticesCapacity);
    var triangleFound := true;
    while |verts| != 0
      invariant 0 <= outVertexIndex <= outVertices.Length
      invariant Clip(verts, outVertices[..outVertexIndex], outVerticesCapacity) == target
      invariant !triangleFound ==> FirstEarFrom(verts, 0).None?
      decreases |verts|, if triangleFound then 1 else 0
    {
      if !triangleFound {
        return outVertexIndex;
      }
      triangleFound := false;

      ghost var scanned := verts;
      ghost var emitted := outVertices[..outVertexIndex];
      var i := 0;
      while i < |verts| - 2
        invariant 0 <= i
        invariant 0 <= outVertexIndex <= outVertices.Length
        invariant !triangleFound ==> verts == scanned && outVertices[..outVertexIndex] == emitted
        invariant !triangleFound ==> forall j :: 0 <= j < i && j + 2 < |scanned| ==> !IsEar(scanned, j)
        invariant triangleFound ==>
          Clip(verts, outVertices[..outVertexIndex], outVerticesCapacity) == Clip(scanned, emitted, outVerticesCapacity)
        invariant triangleFound ==> |verts| < |scanned|
        decreases |verts| - i
      {
        if !triangleFound {
          var d := Determinant(verts[i + 2].Minus(verts[i + 1]), verts[i + 1].Minus(verts[i]));
          if d < 0.0 {
            triangleFound := true;
            assert FirstEarFrom(scanned, 0) == Some(i) by {
              assert IsEar(scanned, i);
              NoEarBefore(scanned, 0, i);
            }

            if outVertexIndex + 3 > outVerticesCapacity {
              return 0;
            }

            outVertices[outVertexIndex] := verts[i];
            outVertexIndex := outVertexIndex + 1;
            outVertices[outVertexIndex] := verts[i + 1];
            outVertexIndex := outVertexIndex + 1;
            outVertices[outVertexIndex] := verts[i + 2];
            outVertexIndex := outVertexIndex + 1;
            assert outVertices[..outVertexIndex] == emitted + [scanned[i], scanned[i + 1], scanned[i + 2]];

            verts := RemoveAt(verts, i + 1);
          }
        }
        i := i + 1;
      }
      if !triangleFound {
        assert FirstEarFrom(scanned, 0).None?;
      }
    }
    return outVertexIndex;
  }

  /** When no ear exists strictly between `from` and `i`, and `i` is an ear, the
      first ear from `from` is `i`. */
  lemma {:induction false} NoEarBefore(verts: seq<Vec2>, from: nat, i: nat)
    requires from <= i && i + 2 < |verts| && IsEar(verts, i)
    requires forall j :: from <= j < i ==> !IsEar(verts, j)
    ensures FirstEarFrom(verts, from) == Some(i)
    decreases i - from
  {
    if from < i {
      NoEarBefore(verts, from + 1, i);
    }
  }

  /** The count Triangulate returns for a polygon of more than three vertices is a
      multiple of 3, at most `3 * (n - 2)`, and within the capacity whenever it is
      not zero; every emitted triple is an ear and every emitted vertex is one of
      the polygon's. */
  lemma TriangulateCount(poly: Polygon, sorted: seq<Vec2>, capacity: int)
    requires multiset(sorted) == multiset(poly.vertices) && |poly.vertices| > 3
    ensures Clip(sorted, [], capacity).Complete? ==>
      var e := Clip(sorted, [], capacity).emitted;
      && |e| % 3 == 0
      && |e| <= 3 * (|poly.vertices| - 2)
      && (|e| > 0 ==> |e| <= capacity)
      && TrianglesAreEars(e, 0)
      && forall k :: 0 <= k < |e| ==> e[k] in poly.vertices
  {
    assert |sorted| == |poly.vertices| by {
      assert |multiset(sorted)| == |multiset(poly.vertices)|;
    }
    ClipCount(sorted, [], capacity);
    ClipEmitsEars(sorted, [], capacity);
    ClipEmitsInputVertices(sorted, [], capacity);
    if Clip(sorted, [], capacity).Complete? {
      var e := Clip(sorted, [], capacity).emitted;
      forall k | 0 <= k < |e| ensures e[k] in poly.vertices {
        assert e[k] in multiset(sorted);
      }
    }
  }

  /** Each clipped ear removes exactly one working vertex, so the loop ends; when
      it ends without running out of space, at least two vertices remain. */
  lemma {:induction false} ClipLeavesTwo(verts: seq<Vec2>, emitted: seq<Vec2>, capacity: int)
    requires |verts| >= 2
    ensures Clip(verts, emitted, capacity).Complete? ==>
      |Clip(verts, emitted, capacity).emitted| - |emitted| == 3 * (|verts| - |LastWorkingList(verts, capacity - |emitted|)|)
    ensures |LastWorkingList(verts, capacity - |emitted|)| >= 2
    decreases |verts|
  {
    match FirstEarFrom(verts, 0)
    case None =>
    case Some(i) =>
      if |emitted| + 3 <= capacity {
        ClipLeavesTwo(RemoveAt(verts, i + 1), emitted + [verts[i], verts[i + 1], verts[i + 2]], capacity);
      }
  }

  /** The working list the clipping loop stops with, given the room left. */
  function LastWorkingList(verts: seq<Vec2>, room: int): seq<Vec2>
    decreases |verts|
  {
    match FirstEarFrom(verts, 0)
    case None => verts
    case Some(i) =>
      if 3 > room then verts
      else LastWorkingList(RemoveAt(verts, i + 1), room - 3)
  }
}
