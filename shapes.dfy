/** Points, the ordering Python uses to sort them, and the geometry operations the
    converter borrows from pyproj and shapely. Those operations are floating-point
    computational geometry; here they are parameters (`Transformer`, `GeoOps`) and the
    model proves nothing about what they compute. */
module Shapes {
  import opened Wrappers

  /** A reprojected position `[lon, lat]`; coordinates are modelled as reals. */
  datatype Point = Point(lon: real, lat: real)

  /** Python compares two `[lon, lat]` lists element by element. */
  predicate PointLe(p: Point, q: Point)
  {
    p.lon < q.lon || (p.lon == q.lon && p.lat <= q.lat)
  }

  ghost predicate SortedPoints(s: seq<Point>)
  {
    forall i, j :: 0 <= i < j < |s| ==> PointLe(s[i], s[j])
  }

  function InsertPoint(p: Point, s: seq<Point>): seq<Point>
  {
    if |s| == 0 then [p]
    else if PointLe(p, s[0]) then [p] + s
    else [s[0]] + InsertPoint(p, s[1..])
  }

  /** Python's `sorted(coords)` on a list of positions (insertion sort). */
  function SortPoints(s: seq<Point>): seq<Point>
  {
    if |s| == 0 then [] else InsertPoint(s[|s| - 1], SortPoints(s[..|s| - 1]))
  }

  lemma {:induction false} InsertPointCorrect(p: Point, s: seq<Point>)
    requires SortedPoints(s)
    ensures SortedPoints(InsertPoint(p, s))
    ensures multiset(InsertPoint(p, s)) == multiset(s) + multiset{p}
  {
    InsertPointPermutes(p, s);
    if |s| > 0 && !PointLe(p, s[0]) {
      var rest := InsertPoint(p, s[1..]);
      InsertPointCorrect(p, s[1..]);
      forall k | 0 <= k < |rest| ensures PointLe(s[0], rest[k]) {
        assert rest[k] in multiset(rest);
        if rest[k] != p {
          assert rest[k] in multiset(s[1..]);
          var m :| 1 <= m < |s| && s[m] == rest[k];
        }
      }
      assert InsertPoint(p, s) == [s[0]] + rest;
    }
  }

  lemma {:induction false} InsertPointPermutes(p: Point, s: seq<Point>)
    ensures multiset(InsertPoint(p, s)) == multiset(s) + multiset{p}
  {
    if |s| > 0 && !PointLe(p, s[0]) {
      InsertPointPermutes(p, s[1..]);
      assert s == [s[0]] + s[1..];
    }
  }

  /** `sorted(coords)` is a sorted permutation of `coords`. */
  lemma {:induction false} SortPointsCorrect(s: seq<Point>)
    ensures SortedPoints(SortPoints(s))
    ensures multiset(SortPoints(s)) == multiset(s)
  {
    if |s| > 0 {
      SortPointsCorrect(s[..|s| - 1]);
      InsertPointCorrect(s[|s| - 1], SortPoints(s[..|s| - 1]));
      assert s == s[..|s| - 1] + [s[|s| - 1]];
    }
  }

  lemma MultisetTail(a: seq<Point>)
    requires |a| > 0
    ensures multiset(a[1..]) == multiset(a) - multiset{a[0]}
  {
    assert a == [a[0]] + a[1..];
  }

  lemma SortedHeadsAgree(a: seq<Point>, b: seq<Point>)
    requires SortedPoints(a) && SortedPoints(b)
    requires multiset(a) == multiset(b) && |a| > 0
    ensures |b| > 0 && a[0] == b[0]
  {
    assert a[0] in multiset(b);
    var k :| 0 <= k < |b| && b[k] == a[0];
    assert b[0] in multiset(a);
    var m :| 0 <= m < |a| && a[m] == b[0];
    assert PointLe(b[0], a[0]) && PointLe(a[0], b[0]);
  }

  /** A sorted permutation is unique: sorting depends only on the multiset of positions. */
  lemma {:induction false} SortedPointsUnique(a: seq<Point>, b: seq<Point>)
    requires SortedPoints(a) && SortedPoints(b)
    requires multiset(a) == multiset(b)
    ensures a == b
  {
    if |a| > 0 {
      SortedHeadsAgree(a, b);
      MultisetTail(a);
      MultisetTail(b);
      SortedPointsUnique(a[1..], b[1..]);
      assert a == [a[0]] + a[1..] && b == [b[0]] + b[1..];
    } else {
      assert |b| == |multiset(b)| == 0;
    }
  }

  /** A shapely Polygon: an exterior ring and interior rings (holes). */
  datatype PolygonGeom = PolygonGeom(exterior: seq<Point>, interiors: seq<seq<Point>>)

  /** What `unary_union` can hand back: a Polygon, a MultiPolygon, or some other
      geometry (a GeometryCollection, for one), which has no `exterior`. */
  datatype Shape =
    | PolygonShape(polygon: PolygonGeom)
    | MultiPolygonShape(parts: seq<PolygonGeom>)
    | OtherShape(empty: bool)

  /** A shapely geometry is falsy exactly when it is empty. */
  predicate IsEmpty(s: Shape)
  {
    match s
    case PolygonShape(p) => |p.exterior| == 0
    case MultiPolygonShape(parts) => |parts| == 0
    case OtherShape(empty) => empty
  }

  /** The shapely operations the converter calls: `unary_union` (None when it raises),
      `is_valid` and `centroid`. */
  datatype GeoOps = GeoOps(
    union: seq<PolygonGeom> -> Option<Shape>,
    isValid: Shape -> bool,
    centroid: PolygonGeom -> Point)

  /** A configured pyproj transformer: `transform(x, y)` gives `(lon, lat)`. */
  datatype Transformer = Transformer(transform: (real, real) -> Point)

  /** The JSON value of a GeoJSON `coordinates` member: a position or a nested list. */
  datatype Coords = Position(p: Point) | List(items: seq<Coords>)

  /** `list(ring.coords)`: a list of positions. */
  function RingCoords(ring: seq<Point>): (c: Coords)
    ensures c.List? && |c.items| == |ring|
    ensures forall i :: 0 <= i < |ring| ==> c.items[i] == Position(ring[i])
  {
    List(seq(|ring|, i requires 0 <= i < |ring| => Position(ring[i])))
  }
}
