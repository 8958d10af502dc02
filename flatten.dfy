/** The per-entity work of `extract_clean_geometry_2D`
    (Tools/bim_ifc_to_geojson_2d.py:49-93): read each triangle of the mesh, drop z,
    reproject, close the ring, drop triangles whose key was already seen, union the
    survivors and keep the result only if it is valid. */
module Flatten {
  import opened Wrappers
  import opened Shapes
  import opened Ifc

  // ---------------------------------------------------------------------------
  // Reading vertices: Python slicing `verts[3k : 3k + 3]` and `x, y, _ = ...`
  // ---------------------------------------------------------------------------

  /** Python's normalisation of a slice bound: negative counts from the end, then clamp. */
  function SliceBound(x: int, n: nat): (b: nat)
    ensures b <= n
  {
    var y := if x < 0 then x + n else x;
    if y < 0 then 0 else if y > n then n else y
  }

  /** `s[start:stop]` with Python semantics: never raises, may be shorter than asked. */
  function PySlice(s: seq<real>, start: int, stop: int): (r: seq<real>)
    ensures |r| <= |s|
  {
    var a := SliceBound(start, |s|);
    var b := SliceBound(stop, |s|);
    if a < b then s[a..b] else []
  }

  /** The slice `verts[k * 3 : k * 3 + 3]` as Python takes it. */
  function VertexSlice(verts: seq<real>, k: int): seq<real>
  {
    PySlice(verts, k * 3, k * 3 + 3)
  }

  /** `x, y, _ = verts[k * 3 : k * 3 + 3]`: `None` when the slice does not hold exactly
      three numbers, which makes the unpacking raise. Written by cases on the sign of
      `k`; `VertexXYIsSliceUnpacking` shows it agrees with the slice. */
  function VertexXY(verts: seq<real>, k: int): Option<(real, real)>
  {
    var start := if k >= 0 then 3 * k else |verts| + 3 * k;
    if k != -1 && 0 <= start && start + 3 <= |verts| then Some((verts[start], verts[start + 1]))
    else None
  }

  /** The unpacking succeeds exactly when the slice holds three numbers, and then reads
      its first two. */
  lemma VertexXYIsSliceUnpacking(verts: seq<real>, k: int)
    ensures VertexXY(verts, k).Some? <==> |VertexSlice(verts, k)| == 3
    ensures VertexXY(verts, k).Some? ==>
      VertexXY(verts, k).value == (VertexSlice(verts, k)[0], VertexSlice(verts, k)[1])
  {
  }

  /** A non-negative index reads x and y of vertex k, or raises when the vertex is
      missing (or only partly present) at the end of `verts`. */
  lemma VertexXYNonNegative(verts: seq<real>, k: int)
    requires k >= 0
    ensures |VertexSlice(verts, k)| == 3 <==> 3 * k + 3 <= |verts|
    ensures |VertexSlice(verts, k)| == 3 ==> VertexSlice(verts, k)[..2] == verts[3 * k .. 3 * k + 2]
  {
  }

  /** A negative index follows Python's wrap-around: -1 always raises (the slice
      `verts[-3:0]` is empty), and k <= -2 reads the vertex |verts|/3 + k from the end
      when that many numbers exist. */
  lemma VertexXYNegative(verts: seq<real>, k: int)
    requires k < 0
    ensures |VertexSlice(verts, k)| == 3 <==> k <= -2 && |verts| + 3 * k >= 0
    ensures |VertexSlice(verts, k)| == 3 ==>
      VertexSlice(verts, k)[..2] == verts[|verts| + 3 * k .. |verts| + 3 * k + 2]
  {
  }

  // ---------------------------------------------------------------------------
  // Ring assembly
  // ---------------------------------------------------------------------------

  /** The number of iterations of `range(0, len(faces), 3)`. */
  function FaceCount(m: Mesh): nat
  {
    (|m.faces| + 2) / 3
  }

  /** Vertex `j` of the face at `i`: `faces[i + j]` raises when out of range. */
  function FacePoint(m: Mesh, t: Transformer, idx: nat): Option<Point>
  {
    if idx >= |m.faces| then None
    else match VertexXY(m.verts, m.faces[idx])
      case None => None
      case Some(xy) => Some(t.transform(xy.0, xy.1))
  }

  /** The three reprojected vertices, with the first appended when it differs from the
      third. */
  function ClosedRing(p0: Point, p1: Point, p2: Point): seq<Point>
  {
    if p0 != p2 then [p0, p1, p2, p0] else [p0, p1, p2]
  }

  /** The ring of the face whose entries start at `faces[i]`, or `None` when reading
      it raises. */
  function FaceRing(m: Mesh, t: Transformer, i: nat): Option<seq<Point>>
  {
    var p0 := FacePoint(m, t, i);
    var p1 := FacePoint(m, t, i + 1);
    var p2 := FacePoint(m, t, i + 2);
    if p0.Some? && p1.Some? && p2.Some? then Some(ClosedRing(p0.value, p1.value, p2.value))
    else None
  }

  /** Every face ring is closed and has four positions, or three when the third vertex
      already equals the first; the vertices come from `verts[3f .. 3f + 1]` for the face
      entries f, z being discarded. */
  lemma FaceRingShape(m: Mesh, t: Transformer, i: nat)
    requires FaceRing(m, t, i).Some?
    ensures var ring := FaceRing(m, t, i).value;
      && i + 2 < |m.faces|
      && (|ring| == 3 || |ring| == 4)
      && ring[0] == ring[|ring| - 1]
      && (|ring| == 3 <==> ring[0] == ring[2])
      && forall j :: 0 <= j < 3 ==>
           VertexXY(m.verts, m.faces[i + j]).Some? &&
           ring[j] == t.transform(VertexXY(m.verts, m.faces[i + j]).value.0,
                                  VertexXY(m.verts, m.faces[i + j]).value.1)
  {
  }

  // ---------------------------------------------------------------------------
  // Deduplication
  // ---------------------------------------------------------------------------

  /** `tuple(map(tuple, sorted(coords)))`: the sorted ring, closing position included. */
  function TriangleKey(ring: seq<Point>): seq<Point>
  {
    SortPoints(ring)
  }

  /** Two rings have the same key exactly when they hold the same positions the same
      number of times. */
  lemma KeyIsMultiset(a: seq<Point>, b: seq<Point>)
    ensures TriangleKey(a) == TriangleKey(b) <==> multiset(a) == multiset(b)
  {
    SortPointsCorrect(a);
    SortPointsCorrect(b);
    if multiset(a) == multiset(b) {
      SortedPointsUnique(TriangleKey(a), TriangleKey(b));
    }
  }

  /** Swapping the second and third vertex leaves the key unchanged, as long as the
      first vertex differs from both or from neither. */
  lemma KeyIgnoresSwapOfLastTwo(p0: Point, p1: Point, p2: Point)
    requires (p0 == p1) == (p0 == p2)
    ensures TriangleKey(ClosedRing(p0, p1, p2)) == TriangleKey(ClosedRing(p0, p2, p1))
  {
    var a, b := ClosedRing(p0, p1, p2), ClosedRing(p0, p2, p1);
    assert multiset(a) == multiset(b);
    KeyIsMultiset(a, b);
  }

  /** When exactly one of the other two vertices equals the first, the swap changes the
      key: one ring is closed with three positions, the other is closed by appending. */
  lemma KeyOfDegenerateSwapDiffers(p0: Point, p1: Point, p2: Point)
    requires p0 == p2 && p0 != p1
    ensures TriangleKey(ClosedRing(p0, p1, p2)) != TriangleKey(ClosedRing(p0, p2, p1))
  {
    var a, b := ClosedRing(p0, p1, p2), ClosedRing(p0, p2, p1);
    assert |multiset(a)| == 3 && |multiset(b)| == 4;
    KeyIsMultiset(a, b);
  }

  /** The key is not winding independent: a face and its reversal (0,1,2) / (2,1,0)
      over three distinct positions give different keys, because the closing position
      is counted twice in the key. */
  lemma KeyOfReversedFaceDiffers(p0: Point, p1: Point, p2: Point)
    requires p0 != p1 && p1 != p2 && p0 != p2
    ensures TriangleKey(ClosedRing(p0, p1, p2)) != TriangleKey(ClosedRing(p2, p1, p0))
  {
    var a, b := ClosedRing(p0, p1, p2), ClosedRing(p2, p1, p0);
    assert a == [p0, p1, p2, p0] && b == [p2, p1, p0, p2];
    assert multiset(a)[p0] == 2;
    assert multiset(b)[p0] == 1;
    KeyIsMultiset(a, b);
  }

  /** Over three distinct positions, a face whose key matches another's starts at the same
      vertex and has the same other two: with `KeyIgnoresSwapOfLastTwo`, the key is kept
      exactly by the permutations that keep the first vertex. */
  lemma KeyFixesFirstVertex(p0: Point, p1: Point, p2: Point, q0: Point, q1: Point, q2: Point)
    requires p0 != p1 && p1 != p2 && p0 != p2
    requires TriangleKey(ClosedRing(q0, q1, q2)) == TriangleKey(ClosedRing(p0, p1, p2))
    ensures q0 == p0 && ((q1 == p1 && q2 == p2) || (q1 == p2 && q2 == p1))
  {
    KeyIsMultiset(ClosedRing(q0, q1, q2), ClosedRing(p0, p1, p2));
    RingCountFixesFirstVertex(p0, p1, p2, q0, q1, q2);
  }

  /** The counting argument behind `KeyFixesFirstVertex`: only the first vertex of a ring
      over three distinct positions occurs twice. */
  lemma RingCountFixesFirstVertex(p0: Point, p1: Point, p2: Point, q0: Point, q1: Point, q2: Point)
    requires p0 != p1 && p1 != p2 && p0 != p2
    requires multiset(ClosedRing(q0, q1, q2)) == multiset(ClosedRing(p0, p1, p2))
    ensures q0 == p0 && ((q1 == p1 && q2 == p2) || (q1 == p2 && q2 == p1))
  {
    var a, b := ClosedRing(p0, p1, p2), ClosedRing(q0, q1, q2);
    ClosedRingCount(p0, p1, p2);
    assert |b| == 4 by {
      assert |multiset(b)| == |b|;
    }
    ClosedRingCount(q0, q1, q2);
    assert q0 == p0 by {
      assert multiset(a)[q0] >= 2;
    }
    assert multiset(b)[q1] >= 1 && multiset(b)[q2] >= 1;
    assert q1 != p0 && q2 != p0 by {
      assert multiset(a)[p0] == 2;
    }
  }

  /** A ring closed by appending counts its first vertex twice and the other two once. */
  lemma ClosedRingCount(p0: Point, p1: Point, p2: Point)
    requires p0 != p2
    ensures |ClosedRing(p0, p1, p2)| == 4
    ensures multiset(ClosedRing(p0, p1, p2)) == multiset{p0, p0} + multiset{p1, p2}
  {
    assert ClosedRing(p0, p1, p2) == [p0, p1, p2, p0];
  }

  /** Rotating a face of three distinct positions changes its key. */
  lemma KeyOfRotatedFaceDiffers(p0: Point, p1: Point, p2: Point)
    requires p0 != p1 && p1 != p2 && p0 != p2
    ensures TriangleKey(ClosedRing(p1, p2, p0)) != TriangleKey(ClosedRing(p0, p1, p2))
    ensures TriangleKey(ClosedRing(p2, p0, p1)) != TriangleKey(ClosedRing(p0, p1, p2))
  {
    var a, b, c := ClosedRing(p0, p1, p2), ClosedRing(p1, p2, p0), ClosedRing(p2, p0, p1);
    assert a == [p0, p1, p2, p0] && b == [p1, p2, p0, p1] && c == [p2, p0, p1, p2];
    assert multiset(a)[p0] == 2;
    assert multiset(b)[p0] == 1 && multiset(c)[p0] == 1;
    KeyIsMultiset(b, a);
    KeyIsMultiset(c, a);
  }

  /** The scan state: the keys seen so far and the rings kept as polygons. */
  datatype ScanState = ScanState(seen: set<seq<Point>>, polygons: seq<seq<Point>>)

  /** The ring of every face, in face order; `None` for a face whose reading raises. */
  function FaceRings(m: Mesh, t: Transformer): (fs: seq<Option<seq<Point>>>)
    ensures |fs| == FaceCount(m)
    ensures forall k :: 0 <= k < |fs| ==> fs[k] == FaceRing(m, t, 3 * k)
  {
    seq(FaceCount(m), k requires 0 <= k => FaceRing(m, t, 3 * k))
  }

  /** One iteration of the face loop. `None` stands for the exception that skips the
      entity: reading the face raised, or shapely's `Polygon(coords)` refused a new ring
      of only three positions. */
  function Step(st: Option<ScanState>, face: Option<seq<Point>>): Option<ScanState>
  {
    match st
    case None => None
    case Some(s) =>
      match face
      case None => None
      case Some(ring) =>
        var key := TriangleKey(ring);
        if key in s.seen then st
        else if |ring| < 4 then None
        else Some(ScanState(s.seen + {key}, s.polygons + [ring]))
  }

  /** The state after the given faces, starting from an empty key set (the set is
      fresh for every entity). */
  function Scan(faces: seq<Option<seq<Point>>>): Option<ScanState>
  {
    if |faces| == 0 then Some(ScanState({}, []))
    else Step(Scan(faces[..|faces| - 1]), faces[|faces| - 1])
  }

  /** Once the scan has raised it stays raised. */
  lemma {:induction false} ScanNoneStays(faces: seq<Option<seq<Point>>>, k: nat)
    requires k <= |faces| && Scan(faces[..k]).None?
    ensures Scan(faces).None?
  {
    if k < |faces| {
      var init := faces[..|faces| - 1];
      assert init[..k] == faces[..k];
      ScanNoneStays(init, k);
    } else {
      assert faces[..k] == faces;
    }
  }

  /** The rings of the faces, or `None` when one of them cannot be read. */
  function Rings(faces: seq<Option<seq<Point>>>): Option<seq<seq<Point>>>
  {
    if |faces| == 0 then Some([])
    else match Rings(faces[..|faces| - 1])
      case None => None
      case Some(rs) =>
        match faces[|faces| - 1]
        case None => None
        case Some(ring) => Some(rs + [ring])
  }

  function KeysOf(rings: seq<seq<Point>>): set<seq<Point>>
  {
    set r | r in rings :: TriangleKey(r)
  }

  /** Reference definition of the dedup: the rings whose key does not occur earlier,
      in face order. */
  function FirstOccurrences(rings: seq<seq<Point>>): seq<seq<Point>>
  {
    if |rings| == 0 then []
    else
      var init := rings[..|rings| - 1];
      var last := rings[|rings| - 1];
      if TriangleKey(last) in KeysOf(init) then FirstOccurrences(init)
      else FirstOccurrences(init) + [last]
  }

  /** A first occurrence: no earlier ring has the same key. */
  ghost predicate IsFirstOccurrence(rings: seq<seq<Point>>, i: nat)
    requires i < |rings|
  {
    forall j :: 0 <= j < i ==> TriangleKey(rings[j]) != TriangleKey(rings[i])
  }

  lemma KeysOfSnoc(rs: seq<seq<Point>>, r: seq<Point>)
    ensures KeysOf(rs + [r]) == KeysOf(rs) + {TriangleKey(r)}
  {
    assert forall x :: x in rs + [r] <==> x in rs || x == r;
  }

  /** The scan state after the rings `rs` is the reference one: the first occurrences,
      the set of their keys, and no ring refused by shapely. */
  ghost predicate Represents(st: ScanState, rs: seq<seq<Point>>)
  {
    && st.polygons == FirstOccurrences(rs)
    && st.seen == KeysOf(rs)
    && forall r :: r in rs ==> |r| >= 4
  }

  lemma StepRepresents(st: ScanState, rs: seq<seq<Point>>, ring: seq<Point>)
    requires Represents(st, rs)
    ensures Step(Some(st), Some(ring)).Some? <==> |ring| >= 4
    ensures Step(Some(st), Some(ring)).Some? ==> Represents(Step(Some(st), Some(ring)).value, rs + [ring])
  {
    var all := rs + [ring];
    assert all[..|all| - 1] == rs && all[|all| - 1] == ring;
    KeysOfSnoc(rs, ring);
    if TriangleKey(ring) in KeysOf(rs) {
      SeenKeyHasSameLength(rs, ring);
      assert KeysOf(rs) + {TriangleKey(ring)} == KeysOf(rs);
    }
  }

  /** A ring whose key was already seen has as many positions as the earlier ring. */
  lemma SeenKeyHasSameLength(rs: seq<seq<Point>>, ring: seq<Point>)
    requires TriangleKey(ring) in KeysOf(rs)
    ensures exists r :: r in rs && |r| == |ring|
  {
    var r0 :| r0 in rs && TriangleKey(r0) == TriangleKey(ring);
    KeyIsMultiset(r0, ring);
    assert |r0| == |multiset(r0)| == |multiset(ring)| == |ring|;
  }

  /** The scan keeps exactly the first occurrence of every key, in face order, and
      raises exactly when some face cannot be read or some face ring is shorter than
      four positions (for a face: its third vertex projects onto its first). */
  lemma {:induction false} ScanIsFirstOccurrences(faces: seq<Option<seq<Point>>>)
    ensures Scan(faces).Some? <==>
      Rings(faces).Some? && forall r :: r in Rings(faces).value ==> |r| >= 4
    ensures Scan(faces).Some? ==> Represents(Scan(faces).value, Rings(faces).value)
  {
    if |faces| > 0 {
      var init := faces[..|faces| - 1];
      ScanIsFirstOccurrences(init);
      var face := faces[|faces| - 1];
      if Scan(init).Some? && face.Some? {
        StepRepresents(Scan(init).value, Rings(init).value, face.value);
      } else if Rings(init).Some? && face.Some? {
        var bad :| bad in Rings(init).value && |bad| < 4;
        assert bad in Rings(faces).value;
      }
    }
  }

  /** No two kept polygons share a key. */
  lemma {:induction false} FirstOccurrencesDistinctKeys(rings: seq<seq<Point>>)
    ensures forall i, j :: 0 <= i < j < |FirstOccurrences(rings)| ==>
      TriangleKey(FirstOccurrences(rings)[i]) != TriangleKey(FirstOccurrences(rings)[j])
    ensures forall r :: r in FirstOccurrences(rings) ==> r in rings
  {
    if |rings| > 0 {
      var init := rings[..|rings| - 1];
      var last := rings[|rings| - 1];
      FirstOccurrencesDistinctKeys(init);
      assert rings == init + [last];
      if TriangleKey(last) !in KeysOf(init) {
        var fo := FirstOccurrences(init);
        assert FirstOccurrences(rings) == fo + [last];
        forall i | 0 <= i < |fo| ensures TriangleKey(fo[i]) != TriangleKey(last) {
          assert fo[i] in init;
        }
      }
    }
  }

  /** The kept polygons cover every key, one polygon per distinct key. */
  lemma {:induction false} FirstOccurrencesCount(rings: seq<seq<Point>>)
    ensures KeysOf(FirstOccurrences(rings)) == KeysOf(rings)
    ensures |FirstOccurrences(rings)| == |KeysOf(rings)|
  {
    if |rings| > 0 {
      var init := rings[..|rings| - 1];
      var last := rings[|rings| - 1];
      FirstOccurrencesCount(init);
      assert rings == init + [last];
      KeysOfSnoc(init, last);
      if TriangleKey(last) !in KeysOf(init) {
        KeysOfSnoc(FirstOccurrences(init), last);
      } else {
        assert KeysOf(init) + {TriangleKey(last)} == KeysOf(init);
      }
    }
  }

  /** Every first occurrence is kept: ring `i` is a polygon exactly when no earlier
      face has its key. */
  lemma {:induction false} FirstOccurrenceKept(rings: seq<seq<Point>>, i: nat)
    requires i < |rings| && IsFirstOccurrence(rings, i)
    ensures rings[i] in FirstOccurrences(rings)
  {
    var init := rings[..|rings| - 1];
    assert rings == init + [rings[|rings| - 1]];
    if i < |rings| - 1 {
      assert IsFirstOccurrence(init, i) by {
        forall j | 0 <= j < i ensures TriangleKey(init[j]) != TriangleKey(init[i]) {
          assert init[j] == rings[j];
        }
      }
      FirstOccurrenceKept(init, i);
    }
  }

  // ---------------------------------------------------------------------------
  // Union, validity and the GeoJSON geometry
  // ---------------------------------------------------------------------------

  /** `Polygon(coords)` for each kept ring: no holes. */
  function AsPolygons(rings: seq<seq<Point>>): (ps: seq<PolygonGeom>)
    ensures |ps| == |rings|
    ensures forall i :: 0 <= i < |rings| ==> ps[i] == PolygonGeom(rings[i], [])
  {
    seq(|rings|, i requires 0 <= i < |rings| => PolygonGeom(rings[i], []))
  }

  /** `unary_union(polygons)` for more than one polygon, the polygon itself for one,
      `None` for none; `None` also when the union raises. */
  function Merge(rings: seq<seq<Point>>, ops: GeoOps): Option<Shape>
  {
    if |rings| > 1 then ops.union(AsPolygons(rings))
    else if |rings| == 1 then Some(PolygonShape(PolygonGeom(rings[0], [])))
    else None
  }

  /** The geometry member and GlobalId of one emitted feature. */
  datatype FeatureData = FeatureData(kind: string, coordinates: Coords, globalId: string)

  /** The MultiPolygon coordinates as the converter writes them: one list holding the
      exterior of every part, `[[ring_1, ring_2, ...]]`. */
  function MultiPolygonCoords(parts: seq<PolygonGeom>): (c: Coords)
    ensures c.List? && |c.items| == 1 && c.items[0].List? && |c.items[0].items| == |parts|
    ensures forall i :: 0 <= i < |parts| ==> c.items[0].items[i] == RingCoords(parts[i].exterior)
  {
    List([List(seq(|parts|, i requires 0 <= i < |parts| => RingCoords(parts[i].exterior)))])
  }

  /** The feature for a merged shape: none when there is no shape, it is empty or
      invalid, or it is neither a Polygon nor a MultiPolygon (reading `exterior`
      raises). */
  function ShapeFeature(shape: Option<Shape>, ops: GeoOps, globalId: string): Option<FeatureData>
  {
    if shape.None? || IsEmpty(shape.value) || !ops.isValid(shape.value) then None
    else match shape.value
      case MultiPolygonShape(parts) =>
        Some(FeatureData("MultiPolygon", MultiPolygonCoords(parts), globalId))
      case PolygonShape(p) =>
        Some(FeatureData("Polygon", List([RingCoords(p.exterior)]), globalId))
      case OtherShape(_) => None
  }

  /** The feature `extract_clean_geometry_2D` emits for one entity, or `None` when the
      entity is skipped. */
  function EntityFeature(e: Entity, t: Transformer, ops: GeoOps): Option<FeatureData>
  {
    match e.shape
    case None => None
    case Some(m) =>
      match Scan(FaceRings(m, t))
      case None => None
      case Some(st) => ShapeFeature(Merge(st.polygons, ops), ops, e.globalId)
  }

  /** The features for a list of entities: one per entity that is not skipped, in
      entity order. */
  function CleanGeometry(es: seq<Entity>, t: Transformer, ops: GeoOps): seq<FeatureData>
  {
    if |es| == 0 then []
    else
      var rest := CleanGeometry(es[..|es| - 1], t, ops);
      match EntityFeature(es[|es| - 1], t, ops)
      case None => rest
      case Some(f) => rest + [f]
  }

  /** An emitted feature carries its entity's GlobalId, is a Polygon or a MultiPolygon,
      comes from a shape that passed `is_valid`, and is a MultiPolygon exactly when
      that shape is; the coordinates hold exteriors only. */
  lemma EntityFeatureShape(e: Entity, t: Transformer, ops: GeoOps)
    requires EntityFeature(e, t, ops).Some?
    ensures var f := EntityFeature(e, t, ops).value;
      var m := e.shape.value;
      var st := Scan(FaceRings(m, t)).value;
      var shape := Merge(st.polygons, ops).value;
      && |st.polygons| > 0
      && f.globalId == e.globalId
      && ops.isValid(shape) && !IsEmpty(shape)
      && (f.kind == "MultiPolygon" <==> shape.MultiPolygonShape?)
      && (f.kind == "Polygon" <==> shape.PolygonShape?)
      && (shape.MultiPolygonShape? ==> f.coordinates == MultiPolygonCoords(shape.parts))
      && (shape.PolygonShape? ==> f.coordinates == List([RingCoords(shape.polygon.exterior)]))
  {
  }

  /** Every kept polygon is the closed four-position ring of some face. */
  lemma KeptRingsAreClosed(m: Mesh, t: Transformer)
    requires Scan(FaceRings(m, t)).Some?
    ensures forall r :: r in Scan(FaceRings(m, t)).value.polygons ==> |r| == 4 && r[0] == r[3]
  {
    var fs := FaceRings(m, t);
    forall k | 0 <= k < |fs| && fs[k].Some?
      ensures 3 <= |fs[k].value| <= 4 && fs[k].value[0] == fs[k].value[|fs[k].value| - 1]
    {
      FaceRingShape(m, t, 3 * k);
    }
    KeptRingsOfClosedFaces(fs);
  }

  /** The scan keeps only rings read from the faces and of four or more positions, so
      when every face ring is closed with at most four positions, so is every kept one. */
  lemma KeptRingsOfClosedFaces(fs: seq<Option<seq<Point>>>)
    requires Scan(fs).Some?
    requires forall k :: 0 <= k < |fs| && fs[k].Some? ==>
      3 <= |fs[k].value| <= 4 && fs[k].value[0] == fs[k].value[|fs[k].value| - 1]
    ensures forall r :: r in Scan(fs).value.polygons ==> |r| == 4 && r[0] == r[3]
  {
    ScanIsFirstOccurrences(fs);
    var rings := Rings(fs).value;
    FirstOccurrencesDistinctKeys(rings);
    RingsAreFaceRings(fs);
    forall r | r in Scan(fs).value.polygons ensures |r| == 4 && r[0] == r[3] {
      assert r in rings;
      var k :| 0 <= k < |fs| && fs[k] == Some(r);
    }
  }

  /** One surviving triangle is used as it is, without calling `unary_union`: the
      feature is that ring as a Polygon when the triangle is valid. */
  lemma SingleTriangleUsedDirectly(e: Entity, t: Transformer, ops: GeoOps)
    requires e.shape.Some?
    requires Scan(FaceRings(e.shape.value, t)).Some?
    requires |Scan(FaceRings(e.shape.value, t)).value.polygons| == 1
    ensures var ring := Scan(FaceRings(e.shape.value, t)).value.polygons[0];
      var poly := PolygonShape(PolygonGeom(ring, []));
      && |ring| == 4 && ring[0] == ring[3]
      && EntityFeature(e, t, ops) ==
           if ops.isValid(poly) then Some(FeatureData("Polygon", List([RingCoords(ring)]), e.globalId))
           else None
  {
    KeptRingsAreClosed(e.shape.value, t);
    assert Scan(FaceRings(e.shape.value, t)).value.polygons[0] in Scan(FaceRings(e.shape.value, t)).value.polygons;
  }

  /** The rings are those of the faces, each one read successfully. */
  lemma {:induction false} RingsAreFaceRings(faces: seq<Option<seq<Point>>>)
    requires Rings(faces).Some?
    ensures forall r :: r in Rings(faces).value ==> exists k :: 0 <= k < |faces| && faces[k] == Some(r)
  {
    if |faces| > 0 {
      var init := faces[..|faces| - 1];
      RingsAreFaceRings(init);
      forall r | r in Rings(faces).value ensures exists k :: 0 <= k < |faces| && faces[k] == Some(r) {
        if r in Rings(init).value {
          var k :| 0 <= k < |init| && init[k] == Some(r);
          assert faces[k] == init[k];
        } else {
          assert faces[|faces| - 1] == Some(r);
        }
      }
    }
  }

  /** An entity without any face gives no feature. */
  lemma NoFacesNoFeature(e: Entity, t: Transformer, ops: GeoOps)
    requires e.shape.Some? && |e.shape.value.faces| == 0
    ensures EntityFeature(e, t, ops).None?
  {
    assert FaceRings(e.shape.value, t) == [];
  }

  /** A face that cannot be read (an index past the end of `faces` or of `verts`) skips
      the whole entity, whatever the other faces hold. */
  lemma MalformedFaceSkipsEntity(e: Entity, t: Transformer, ops: GeoOps, k: nat)
    requires e.shape.Some? && k < FaceCount(e.shape.value)
    requires FaceRing(e.shape.value, t, 3 * k).None?
    ensures EntityFeature(e, t, ops).None?
  {
    var fs := FaceRings(e.shape.value, t);
    assert fs[..k + 1][..k] == fs[..k];
    assert Scan(fs[..k + 1]).None?;
    ScanNoneStays(fs, k + 1);
  }

  /** A face whose third vertex projects onto its first skips the whole entity: its
      ring has three positions and shapely's `Polygon` refuses it. */
  lemma DegenerateFaceSkipsEntity(e: Entity, t: Transformer, ops: GeoOps, k: nat)
    requires e.shape.Some? && k < FaceCount(e.shape.value)
    requires FaceRing(e.shape.value, t, 3 * k).Some? && |FaceRing(e.shape.value, t, 3 * k).value| == 3
    ensures EntityFeature(e, t, ops).None?
  {
    var fs := FaceRings(e.shape.value, t);
    var ring := fs[k].value;
    assert fs[..k + 1][..k] == fs[..k];
    if Scan(fs[..k]).Some? {
      ScanIsFirstOccurrences(fs[..k]);
      var st := Scan(fs[..k]).value;
      if TriangleKey(ring) in st.seen {
        var r :| r in Rings(fs[..k]).value && TriangleKey(r) == TriangleKey(ring);
        KeyIsMultiset(r, ring);

      }
      assert Scan(fs[..k + 1]).None?;
      ScanNoneStays(fs, k + 1);
    } else {
      ScanNoneStays(fs, k);
    }
  }

  /** At most one feature per entity. */
  lemma {:induction false} CleanGeometryAtMostOnePerEntity(es: seq<Entity>, t: Transformer, ops: GeoOps)
    ensures |CleanGeometry(es, t, ops)| <= |es|
    ensures forall f :: f in CleanGeometry(es, t, ops) ==>
      exists i :: 0 <= i < |es| && EntityFeature(es[i], t, ops) == Some(f)
  {
    if |es| > 0 {
      var init := es[..|es| - 1];
      CleanGeometryAtMostOnePerEntity(init, t, ops);
      forall f | f in CleanGeometry(es, t, ops)
        ensures exists i :: 0 <= i < |es| && EntityFeature(es[i], t, ops) == Some(f)
      {
        if f in CleanGeometry(init, t, ops) {
          var i :| 0 <= i < |init| && EntityFeature(init[i], t, ops) == Some(f);
          assert es[i] == init[i];
        } else {
          assert EntityFeature(es[|es| - 1], t, ops) == Some(f);
        }
      }
    }
  }

  /** One entity gives its feature, or nothing when it is skipped. With
      `CleanGeometryAppend` this fixes the list: one feature per entity that is not
      skipped, in entity order. */
  lemma CleanGeometryOfOne(e: Entity, t: Transformer, ops: GeoOps)
    ensures CleanGeometry([e], t, ops) ==
      if EntityFeature(e, t, ops).None? then [] else [EntityFeature(e, t, ops).value]
  {
    assert [e][..0] == [];
  }

  /** An entity that is skipped does not disturb the others: the features of a list
      are the features of its two halves, in order. */
  lemma {:induction false} CleanGeometryAppend(a: seq<Entity>, b: seq<Entity>, t: Transformer, ops: GeoOps)
    ensures CleanGeometry(a + b, t, ops) == CleanGeometry(a, t, ops) + CleanGeometry(b, t, ops)
  {
    if |b| > 0 {
      var binit := b[..|b| - 1];
      CleanGeometryAppend(a, binit, t, ops);
      assert (a + b)[..|a + b| - 1] == a + binit;
      assert (a + b)[|a + b| - 1] == b[|b| - 1];
    } else {
      assert a + b == a;
    }
  }

  /** Every feature carries the GlobalId of one of the entities. */
  lemma {:induction false} CleanGeometryIds(es: seq<Entity>, t: Transformer, ops: GeoOps)
    ensures forall f :: f in CleanGeometry(es, t, ops) ==>
      exists e :: e in es && f.globalId == e.globalId
  {
    CleanGeometryAtMostOnePerEntity(es, t, ops);
    forall f | f in CleanGeometry(es, t, ops) ensures exists e :: e in es && f.globalId == e.globalId {
      var i :| 0 <= i < |es| && EntityFeature(es[i], t, ops) == Some(f);
      EntityFeatureShape(es[i], t, ops);
    }
  }

  // ---------------------------------------------------------------------------
  // The loop itself
  // ---------------------------------------------------------------------------

  /** Reads the face at `i` (lines 59-66): three vertices, z dropped, reprojected, the
      ring closed when the third position differs from the first. */
  method ReadFace(m: Mesh, t: Transformer, i: nat) returns (ring: Option<seq<Point>>)
    ensures ring == FaceRing(m, t, i)
  {
    var coords: seq<Point> := [];
    for j := 0 to 3
      invariant |coords| == j
      invariant forall q :: 0 <= q < j ==> FacePoint(m, t, i + q) == Some(coords[q])
    {
      if i + j >= |m.faces| {
        assert FacePoint(m, t, i + j).None?;
        assert FaceRing(m, t, i).None?;
        return None;
      }
      var xy := VertexXY(m.verts, m.faces[i + j]);
      if xy.None? {
        assert FacePoint(m, t, i + j).None?;
        assert FaceRing(m, t, i).None?;
        return None;
      }
      coords := coords + [t.transform(xy.value.0, xy.value.1)];
    }
    ghost var face := coords;
    assert FacePoint(m, t, i) == Some(face[0]);
    assert FacePoint(m, t, i + 1) == Some(face[1]);
    assert FacePoint(m, t, i + 2) == Some(face[2]);
    assert face == [face[0], face[1], face[2]];
    if coords[0] != coords[|coords| - 1] {
      coords := coords + [coords[0]];
    }
    assert coords == ClosedRing(face[0], face[1], face[2]);
    ring := Some(coords);
  }

  /** Lines 73-91: no shape for no polygon, the polygon itself for one, the union for
      more; a feature only for a non-empty valid Polygon or MultiPolygon. */
  method EmitFeature(polygons: seq<seq<Point>>, ops: GeoOps, globalId: string) returns (f: Option<FeatureData>)
    ensures f == ShapeFeature(Merge(polygons, ops), ops, globalId)
    ensures |polygons| == 0 ==> f.None?
    ensures |polygons| == 1 ==>
      var p := PolygonShape(PolygonGeom(polygons[0], []));
      f == if |polygons[0]| > 0 && ops.isValid(p)
           then Some(FeatureData("Polygon", List([RingCoords(polygons[0])]), globalId))
           else None
    ensures |polygons| > 1 ==>
      var u := ops.union(AsPolygons(polygons));
      (f.Some? <==> u.Some? && !IsEmpty(u.value) && ops.isValid(u.value) && !u.value.OtherShape?) &&
      (f.Some? ==>
         && f.value.globalId == globalId
         && (f.value.kind == "MultiPolygon" <==> u.value.MultiPolygonShape?)
         && (f.value.kind == "Polygon" <==> u.value.PolygonShape?)
         && (u.value.MultiPolygonShape? ==> f.value.coordinates == MultiPolygonCoords(u.value.parts))
         && (u.value.PolygonShape? ==> f.value.coordinates == List([RingCoords(u.value.polygon.exterior)])))
  {
    var fullShape: Option<Shape>;
    if |polygons| > 1 {
      fullShape := ops.union(AsPolygons(polygons));
    } else if |polygons| == 1 {
      fullShape := Some(PolygonShape(PolygonGeom(polygons[0], [])));
    } else {
      fullShape := None;
    }
    if fullShape.Some? && !IsEmpty(fullShape.value) && ops.isValid(fullShape.value) {
      var shape := fullShape.value;
      if shape.MultiPolygonShape? {
        f := Some(FeatureData("MultiPolygon", MultiPolygonCoords(shape.parts), globalId));
      } else if shape.PolygonShape? {
        f := Some(FeatureData("Polygon", List([RingCoords(shape.polygon.exterior)]), globalId));
      } else {
        f := None;
      }
    } else {
      f := None;
    }
  }

  /** The body of the `for entity in entities` loop with its `try` (lines 50-93):
      `None` when the entity is skipped. The key set is local to the entity. */
  method FlattenEntity(e: Entity, t: Transformer, ops: GeoOps) returns (f: Option<FeatureData>)
    ensures f == EntityFeature(e, t, ops)
  {
    if e.shape.None? {
      return None;
    }
    var m := e.shape.value;
    ghost var fs := FaceRings(m, t);
    var polygons: seq<seq<Point>> := [];
    var uniqueTriangles: set<seq<Point>> := {};
    var i := 0;
    ghost var k := 0;
    while i < |m.faces|
      invariant i == 3 * k && k <= |fs|
      invariant i < |m.faces| ==> k < |fs|
      invariant Scan(fs[..k]) == Some(ScanState(uniqueTriangles, polygons))
    {
      assert fs[..k + 1][..k] == fs[..k];
      var ring := ReadFace(m, t, i);
      if ring.None? {
        ScanNoneStays(fs, k + 1);
        return None;
      }
      var coords := ring.value;
      var key := TriangleKey(coords);
      if key !in uniqueTriangles {
        uniqueTriangles := uniqueTriangles + {key};
        if |coords| < 4 {
          ScanNoneStays(fs, k + 1);
          return None;
        }
        polygons := polygons + [coords];
      }
      i := i + 3;
      k := k + 1;
    }
    assert k == |fs|;
    assert fs[..k] == fs;
    f := EmitFeature(polygons, ops, e.globalId);
  }
}
