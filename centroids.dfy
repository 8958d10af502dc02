/** `calculate_centroids` (Tools/bim_ifc_to_geojson_2d.py:96-116): for every feature,
    find the first ring of its coordinates, close it in place, and report the centroid
    of that ring as a polygon when shapely finds the polygon valid. */
module Centroids {
  import opened Wrappers
  import opened Shapes
  import opened Values
  import opened Converter
  import opened Flatten

  /** An entry of the returned list: `{"GlobalId": ..., "centroid": (x, y)}`. */
  datatype Centroid = Centroid(globalId: Value, centroid: Point)

  /** The descent of lines 99-101: follow first elements while they are lists. `None`
      when it indexes an empty list, an IndexError that is outside the `try` and so
      escapes `calculate_centroids`. */
  function Descend(c: Coords): Option<Coords>
  {
    match c
    case Position(_) => Some(c)
    case List(items) =>
      if |items| == 0 then None
      else if items[0].List? then Descend(items[0])
      else Some(c)
  }

  /** The descent stops at a position or at a non-empty list that starts with a
      position, and it fails exactly when the chain of first elements reaches an
      empty list. */
  lemma {:induction false} DescendShape(c: Coords)
    ensures Descend(c).Some? ==>
      || (Descend(c).value.Position? && c == Descend(c).value)
      || (Descend(c).value.List? && |Descend(c).value.items| > 0 && Descend(c).value.items[0].Position?)
    ensures Descend(c).None? <==> EndsInEmptyList(c)
  {
    if c.List? && |c.items| > 0 && c.items[0].List? {
      DescendShape(c.items[0]);
    }
  }

  /** Following first elements from `c` reaches an empty list. */
  predicate EndsInEmptyList(c: Coords)
  {
    c.List? && (|c.items| == 0 || (c.items[0].List? && EndsInEmptyList(c.items[0])))
  }

  /** Lines 104-105 on the ring found: a list of three or more entries whose last entry
      differs from its first gets its first entry appended. */
  function CloseRing(ring: Coords): Coords
  {
    match ring
    case Position(_) => ring
    case List(items) =>
      if |items| >= 3 && items[0] != items[|items| - 1] then List(items + [items[0]]) else ring
  }

  /** The feature's coordinates after the append: the list found by the descent is the
      feature's own, so the ring inside the feature is the one that grows. */
  function CloseFirstRing(c: Coords): Coords
  {
    if c.List? && |c.items| > 0 && c.items[0].List? then List([CloseFirstRing(c.items[0])] + c.items[1..])
    else CloseRing(c)
  }

  /** `d` differs from `c` only where the descent of `c` ends: every list on the chain of
      first elements keeps its length and every entry after its first, and the list the
      chain ends at only has entries appended. */
  predicate SameOffDescent(c: Coords, d: Coords)
  {
    if c.List? && |c.items| > 0 && c.items[0].List? then
      d.List? && |d.items| == |c.items| && d.items[1..] == c.items[1..] &&
      SameOffDescent(c.items[0], d.items[0])
    else
      d == c || (c.List? && d.List? && |c.items| <= |d.items| && d.items[..|c.items|] == c.items)
  }

  /** The change is made where the descent ends, and nowhere else. */
  lemma {:induction false} CloseFirstRingAtDescent(c: Coords)
    requires Descend(c).Some?
    ensures Descend(CloseFirstRing(c)) == Some(CloseRing(Descend(c).value))
    ensures SameOffDescent(c, CloseFirstRing(c))
    ensures CloseRing(Descend(c).value) == Descend(c).value ==> CloseFirstRing(c) == c
  {
    if c.List? && |c.items| > 0 && c.items[0].List? {
      CloseFirstRingAtDescent(c.items[0]);
      assert c.items == [c.items[0]] + c.items[1..];
    }
  }

  /** A failed descent changes nothing. */
  lemma {:induction false} CloseFirstRingWhenDescentFails(c: Coords)
    requires Descend(c).None?
    ensures CloseFirstRing(c) == c
  {
    if c.List? && |c.items| > 0 && c.items[0].List? {
      CloseFirstRingWhenDescentFails(c.items[0]);
      assert c.items == [c.items[0]] + c.items[1..];
    }
  }

  /** The ring found is closed afterwards: a list of three or more entries ends with
      its first entry. */
  lemma CloseRingCloses(ring: Coords)
    requires ring.List? && |ring.items| >= 3
    ensures var r := CloseRing(ring).items; r[0] == r[|r| - 1]
    ensures CloseRing(CloseRing(ring)) == CloseRing(ring)
  {
  }

  /** Closing is idempotent: a second `calculate_centroids` over the same features
      appends nothing more. */
  lemma CloseFirstRingIdempotent(c: Coords)
    ensures CloseFirstRing(CloseFirstRing(c)) == CloseFirstRing(c)
  {
    if Descend(c).Some? {
      CloseFirstRingAtDescent(c);
      CloseFirstRingAtDescent(CloseFirstRing(c));
      var ring := Descend(c).value;
      if ring.List? && |ring.items| >= 3 {
        CloseRingCloses(ring);
      }
    } else {
      CloseFirstRingWhenDescentFails(c);
    }
  }

  /** The positions of a ring; `None` when an entry is a list, which `Polygon` refuses. */
  function RingPoints(items: seq<Coords>): Option<seq<Point>>
  {
    if |items| == 0 then Some([])
    else match RingPoints(items[..|items| - 1])
      case None => None
      case Some(init) =>
        match items[|items| - 1]
        case Position(p) => Some(init + [p])
        case List(_) => None
  }

  /** `Polygon` accepts the ring exactly when every entry is a position, and then uses
      those positions in order. */
  lemma {:induction false} RingPointsMeaning(items: seq<Coords>)
    ensures RingPoints(items).Some? <==> forall k :: 0 <= k < |items| ==> items[k].Position?
    ensures RingPoints(items).Some? ==>
      |RingPoints(items).value| == |items| &&
      forall k :: 0 <= k < |items| ==> items[k] == Position(RingPoints(items).value[k])
  {
    if |items| > 0 {
      RingPointsMeaning(items[..|items| - 1]);
    }
  }

  /** Lines 106-115 on the closed ring: `Polygon(coords)` raises for an entry that is
      not a position or for fewer than four positions; no centroid either for an
      invalid polygon or when the properties have no GlobalId (the KeyError is caught). */
  function RingCentroid(closed: seq<Coords>, props: Record, ops: GeoOps): Option<Centroid>
  {
    match RingPoints(closed)
    case None => None
    case Some(pts) =>
      if |pts| < 4 then None
      else
        var polygon := PolygonGeom(pts, []);
        if ops.isValid(PolygonShape(polygon)) && "GlobalId" in props
        then Some(Centroid(props["GlobalId"], ops.centroid(polygon)))
        else None
  }

  /** Lines 102-115 for one feature whose descent succeeded: a position or a ring of
      fewer than three entries is skipped, otherwise the ring is closed and tried as a
      polygon. */
  function CentroidFor(c: Coords, props: Record, ops: GeoOps): Option<Centroid>
    requires Descend(c).Some?
  {
    var ring := Descend(c).value;
    if ring.Position? || |ring.items| < 3 then None
    else RingCentroid(CloseRing(ring).items, props, ops)
  }

  /** Closing the ring in place does not change what a later pass computes. */
  lemma CentroidForAfterClosing(c: Coords, props: Record, ops: GeoOps)
    requires Descend(c).Some?
    ensures Descend(CloseFirstRing(c)).Some?
    ensures CentroidFor(CloseFirstRing(c), props, ops) == CentroidFor(c, props, ops)
  {
    CloseFirstRingAtDescent(c);
    var ring := Descend(c).value;
    if ring.List? && |ring.items| >= 3 {
      CloseRingCloses(ring);
    }
  }

  /** What the loop reads of each feature: its coordinates and its properties. */
  function Snapshot(features: seq<Feature>): (snap: seq<(Coords, Record)>)
    reads set f | f in features
    ensures |snap| == |features|
    ensures forall j :: 0 <= j < |features| ==> snap[j] == (features[j].coordinates, features[j].properties)
  {
    seq(|features|, j reads set f | f in features requires 0 <= j < |features| =>
      (features[j].coordinates, features[j].properties))
  }

  /** The loop body on one feature holding `entry`, step by step along the descent:
      the escaping IndexError, or the centroid if there is one. */
  function Visit(entry: (Coords, Record), ops: GeoOps): Result<Option<Centroid>, Failure>
    decreases entry.0
  {
    match entry.0
    case Position(_) => Ok(None)
    case List(items) =>
      if |items| == 0 then Err(IndexError)
      else if items[0].List? then Visit((items[0], entry.1), ops)
      else if |items| < 3 then Ok(None)
      else Ok(RingCentroid(CloseRing(entry.0).items, entry.1, ops))
  }

  /** The visit fails exactly when the descent does, and otherwise yields what
      `CentroidFor` gives for the ring the descent finds. */
  lemma {:induction false} VisitMeaning(entry: (Coords, Record), ops: GeoOps)
    ensures Visit(entry, ops) ==
      if Descend(entry.0).None? then Err(IndexError) else Ok(CentroidFor(entry.0, entry.1, ops))
    decreases entry.0
  {
    var c := entry.0;
    if c.List? && |c.items| > 0 && c.items[0].List? {
      VisitMeaning((c.items[0], entry.1), ops);
    }
  }

  /** The outcome of the loop body on each entry. */
  function Visits(snap: seq<(Coords, Record)>, ops: GeoOps): (vs: seq<Result<Option<Centroid>, Failure>>)
  {
    seq(|snap|, j requires 0 <= j < |snap| => Visit(snap[j], ops))
  }

  /** The loop over the first `n` outcomes: the first exception escapes, otherwise
      the centroids found, in order. */
  function Collect(vs: seq<Result<Option<Centroid>, Failure>>, n: nat): Result<seq<Centroid>, Failure>
    requires n <= |vs|
  {
    if n == 0 then Ok([])
    else match Collect(vs, n - 1)
      case Err(e) => Err(e)
      case Ok(cs) =>
        match vs[n - 1]
        case Err(e) => Err(e)
        case Ok(None) => Ok(cs)
        case Ok(Some(c)) => Ok(cs + [c])
  }

  /** The result of `calculate_centroids` on features holding `snap`. */
  function Centroids(snap: seq<(Coords, Record)>, ops: GeoOps): Result<seq<Centroid>, Failure>
  {
    Collect(Visits(snap, ops), |snap|)
  }

  /** The loop raises the first exception met; otherwise it yields at most one centroid
      per outcome, each one an outcome's centroid. */
  lemma {:induction false} CollectOutcome(vs: seq<Result<Option<Centroid>, Failure>>, n: nat)
    requires n <= |vs|
    ensures Collect(vs, n).Err? <==> Reached(vs, n) < n
    ensures Collect(vs, n).Err? ==> Collect(vs, n) == Err(vs[Reached(vs, n)].error)
    ensures Collect(vs, n).Ok? ==> |Collect(vs, n).value| <= n
    ensures Collect(vs, n).Ok? ==> forall c :: c in Collect(vs, n).value ==>
      exists j :: 0 <= j < n && vs[j] == Ok(Some(c))
  {
    if n > 0 {
      CollectOutcome(vs, n - 1);
      if Collect(vs, n).Ok? {
        forall c | c in Collect(vs, n).value ensures exists j :: 0 <= j < n && vs[j] == Ok(Some(c)) {
          if c in Collect(vs, n - 1).value {
            var j :| 0 <= j < n - 1 && vs[j] == Ok(Some(c));
          }
        }
      }
    }
  }

  /** `calculate_centroids` raises an IndexError exactly when some feature's descent
      fails; otherwise there is at most one centroid per feature, each one what
      `CentroidFor` gives for some feature. */
  lemma CentroidsOutcome(snap: seq<(Coords, Record)>, ops: GeoOps)
    ensures Centroids(snap, ops).Err? <==> exists j :: 0 <= j < |snap| && Descend(snap[j].0).None?
    ensures Centroids(snap, ops).Err? ==> Centroids(snap, ops).error == IndexError
    ensures Centroids(snap, ops).Ok? ==> |Centroids(snap, ops).value| <= |snap|
    ensures Centroids(snap, ops).Ok? ==> forall c :: c in Centroids(snap, ops).value ==>
      exists j :: 0 <= j < |snap| && Descend(snap[j].0).Some? && CentroidFor(snap[j].0, snap[j].1, ops) == Some(c)
  {
    var vs := Visits(snap, ops);
    forall j | 0 <= j < |snap|
      ensures vs[j] == if Descend(snap[j].0).None? then Err(IndexError) else Ok(CentroidFor(snap[j].0, snap[j].1, ops))
    {
      VisitMeaning(snap[j], ops);
    }
    CollectOutcome(vs, |vs|);
    if Centroids(snap, ops).Ok? {
      forall c | c in Centroids(snap, ops).value
        ensures exists j :: 0 <= j < |snap| && Descend(snap[j].0).Some? && CentroidFor(snap[j].0, snap[j].1, ops) == Some(c)
      {
        var j :| 0 <= j < |vs| && vs[j] == Ok(Some(c));
      }
    } else {
      assert vs[Reached(vs, |vs|)].Err?;
    }
  }

  /** The loop over the first `n` outcomes reads only those outcomes. */
  lemma {:induction false} CollectAgree(vs: seq<Result<Option<Centroid>, Failure>>, ws: seq<Result<Option<Centroid>, Failure>>, n: nat)
    requires n <= |vs| && n <= |ws| && vs[..n] == ws[..n]
    ensures Collect(vs, n) == Collect(ws, n)
  {
    if n > 0 {
      assert vs[..n - 1] == vs[..n][..n - 1] && ws[..n - 1] == ws[..n][..n - 1];
      assert vs[n - 1] == vs[..n][n - 1] && ws[n - 1] == ws[..n][n - 1];
      CollectAgree(vs, ws, n - 1);
    }
  }

  /** Running the loop over two runs of outcomes: the first exception escapes, and
      otherwise the centroids of the first run come before those of the second. */
  lemma {:induction false} CollectAppend(u: seq<Result<Option<Centroid>, Failure>>, v: seq<Result<Option<Centroid>, Failure>>)
    ensures Collect(u + v, |u + v|) ==
      match Collect(u, |u|)
      case Err(e) => Err(e)
      case Ok(x) =>
        match Collect(v, |v|)
        case Err(e) => Err(e)
        case Ok(y) => Ok(x + y)
  {
    if |v| == 0 {
      assert u + v == u;
      assert Collect(v, 0) == Ok([]);
      if Collect(u, |u|).Ok? {
        assert Collect(u, |u|).value + [] == Collect(u, |u|).value;
      }
    } else {
      var w, v' := u + v, v[..|v| - 1];
      CollectAppend(u, v');
      assert w[..|w| - 1] == (u + v')[..|u + v'|];
      CollectAgree(w, u + v', |w| - 1);
      assert v[..|v| - 1] == v'[..|v'|];
      CollectAgree(v, v', |v| - 1);
      assert w[|w| - 1] == v[|v| - 1];
      match Collect(u, |u|)
      case Err(e) =>
      case Ok(x) =>
        match Collect(v', |v'|)
        case Err(e) =>
        case Ok(y) =>
          assert forall c :: x + (y + [c]) == (x + y) + [c];
    }
  }

  lemma VisitsAppend(a: seq<(Coords, Record)>, b: seq<(Coords, Record)>, ops: GeoOps)
    ensures Visits(a + b, ops) == Visits(a, ops) + Visits(b, ops)
  {
    var l, r := Visits(a + b, ops), Visits(a, ops) + Visits(b, ops);
    assert |l| == |r|;
    forall j | 0 <= j < |l| ensures l[j] == r[j] {
      if j < |a| { assert (a + b)[j] == a[j]; } else { assert (a + b)[j] == b[j - |a|]; }
    }
  }

  /** The features are visited one after another: `calculate_centroids` over two runs
      of features raises when either run does, and otherwise returns the centroids of
      the first run followed by those of the second. */
  lemma CentroidsAppend(a: seq<(Coords, Record)>, b: seq<(Coords, Record)>, ops: GeoOps)
    ensures Centroids(a + b, ops).Ok? <==> Centroids(a, ops).Ok? && Centroids(b, ops).Ok?
    ensures Centroids(a + b, ops).Ok? ==>
      Centroids(a + b, ops).value == Centroids(a, ops).value + Centroids(b, ops).value
    ensures Centroids(a, ops).Err? ==> Centroids(a + b, ops) == Centroids(a, ops)
  {
    VisitsAppend(a, b, ops);
    CollectAppend(Visits(a, ops), Visits(b, ops));
  }

  /** One feature: IndexError when its descent fails, otherwise its centroid when it
      has one and nothing when it has none. With `CentroidsAppend` this fixes the
      result: every feature with a centroid contributes it once, in feature order. */
  lemma CentroidsOfOne(entry: (Coords, Record), ops: GeoOps)
    ensures Centroids([entry], ops) ==
      if Descend(entry.0).None? then Err(IndexError)
      else if CentroidFor(entry.0, entry.1, ops).None? then Ok([])
      else Ok([CentroidFor(entry.0, entry.1, ops).value])
  {
    VisitMeaning(entry, ops);
    var vs := Visits([entry], ops);
    assert vs == [Visit(entry, ops)];
    assert Collect(vs, 0) == Ok([]);
    if Descend(entry.0).Some? && CentroidFor(entry.0, entry.1, ops).Some? {
      var c := CentroidFor(entry.0, entry.1, ops).value;
      assert vs[0] == Ok(Some(c));
      assert [] + [c] == [c];
    }
  }

  /** A centroid carries its feature's GlobalId and comes from a valid polygon over the
      closed first ring. */
  lemma CentroidForMeaning(c: Coords, props: Record, ops: GeoOps)
    requires Descend(c).Some? && CentroidFor(c, props, ops).Some?
    ensures "GlobalId" in props && CentroidFor(c, props, ops).value.globalId == props["GlobalId"]
    ensures var ring := CloseRing(Descend(c).value);
      && RingPoints(ring.items).Some?
      && |ring.items| >= 4 && ring.items[0] == ring.items[|ring.items| - 1]
      && var polygon := PolygonGeom(RingPoints(ring.items).value, []);
         ops.isValid(PolygonShape(polygon)) && CentroidFor(c, props, ops).value.centroid == ops.centroid(polygon)
  {
    CloseRingCloses(Descend(c).value);
    RingPointsMeaning(CloseRing(Descend(c).value).items);
  }

  /** What the converter writes for a ring, `calculate_centroids` reads back: every
      entry of `list(ring.coords)` is a position, and they are the ring's points. */
  lemma RingCoordsReadBack(ring: seq<Point>)
    ensures RingPoints(RingCoords(ring).items) == Some(ring)
  {
    var items := RingCoords(ring).items;
    RingPointsMeaning(items);
    assert RingPoints(items).value == ring;
  }

  /** The first ring of a Polygon feature built by the converter is its exterior. */
  lemma DescendPolygonFeature(exterior: seq<Point>)
    requires |exterior| > 0
    ensures Descend(List([RingCoords(exterior)])) == Some(RingCoords(exterior))
  {
  }

  /** The first ring of a MultiPolygon feature is the exterior of its first part; an
      empty first exterior makes the call raise. */
  lemma DescendMultiPolygonFeature(parts: seq<PolygonGeom>)
    requires |parts| > 0
    ensures |parts[0].exterior| > 0 ==>
      Descend(MultiPolygonCoords(parts)) == Some(RingCoords(parts[0].exterior))
    ensures |parts[0].exterior| == 0 ==> Descend(MultiPolygonCoords(parts)).None?
  {
    var c := MultiPolygonCoords(parts);
    var exteriors := c.items[0];
    assert exteriors.items[0] == RingCoords(parts[0].exterior);
    assert Descend(c) == Descend(exteriors);
    assert Descend(exteriors) == Descend(RingCoords(parts[0].exterior));
  }

  /** A feature visited a second time holds its closed coordinates; the visit fails,
      computes and closes exactly as the first one did. */
  lemma RevisitIsHarmless(c: Coords, props: Record, ops: GeoOps)
    ensures Descend(CloseFirstRing(c)).None? <==> Descend(c).None?
    ensures Descend(c).Some? ==> CentroidFor(CloseFirstRing(c), props, ops) == CentroidFor(c, props, ops)
    ensures CloseFirstRing(CloseFirstRing(c)) == CloseFirstRing(c)
  {
    CloseFirstRingIdempotent(c);
    if Descend(c).Some? {
      CentroidForAfterClosing(c, props, ops);
    } else {
      CloseFirstRingWhenDescentFails(c);
    }
  }

  /** The `while` of lines 100-101. */
  method FirstRing(c: Coords) returns (ring: Option<Coords>)
    ensures ring == Descend(c)
  {
    var coords := c;
    while coords.List? && |coords.items| > 0 && coords.items[0].List?
      invariant Descend(coords) == Descend(c)
      decreases coords
    {
      coords := coords.items[0];
    }
    if coords.List? && |coords.items| == 0 {
      return None;
    }
    ring := Some(coords);
  }

  /** One pass of the loop body (lines 99-115) on one feature dict: the IndexError of
      the descent, or the centroid if any, with the first ring closed in place. */
  method VisitFeature(feature: Feature, ops: GeoOps) returns (r: Result<Option<Centroid>, Failure>)
    modifies feature`coordinates
    ensures r == Visit((old(feature.coordinates), old(feature.properties)), ops)
    ensures feature.coordinates == CloseFirstRing(old(feature.coordinates))
    ensures r.Err? ==> feature.coordinates == old(feature.coordinates)
  {
    VisitMeaning((feature.coordinates, feature.properties), ops);
    var found := FirstRing(feature.coordinates);
    if found.None? {
      CloseFirstRingWhenDescentFails(feature.coordinates);
      return Err(IndexError);
    }
    var coords := found.value;
    CloseFirstRingAtDescent(feature.coordinates);
    if coords.Position? || |coords.items| < 3 {
      return Ok(None);
    }
    if coords.items[0] != coords.items[|coords.items| - 1] {
      feature.coordinates := CloseFirstRing(feature.coordinates);
      coords := List(coords.items + [coords.items[0]]);
    }
    r := Ok(RingCentroid(coords.items, feature.properties, ops));
  }

  /** `VisitFeature` on the `i`-th of distinct features: the others keep their
      coordinates. */
  method VisitAt(features: seq<Feature>, i: nat, ops: GeoOps) returns (r: Result<Option<Centroid>, Failure>)
    requires i < |features|
    requires forall a, b :: 0 <= a < b < |features| ==> features[a] != features[b]
    modifies {features[i]}`coordinates
    ensures r == Visit((old(features[i].coordinates), features[i].properties), ops)
    ensures forall j :: 0 <= j < |features| ==>
      features[j].coordinates == if j == i then CloseFirstRing(old(features[j].coordinates)) else old(features[j].coordinates)
    ensures r.Err? ==> features[i].coordinates == old(features[i].coordinates)
  {
    r := VisitFeature(features[i], ops);
  }

  /** The first exception met is the one that escapes. */
  lemma CollectFailAt(vs: seq<Result<Option<Centroid>, Failure>>, i: nat)
    requires i < |vs| && vs[i].Err?
    requires forall j :: 0 <= j < i ==> vs[j].Ok?
    ensures Reached(vs, |vs|) == i && Collect(vs, |vs|) == Err(vs[i].error)
  {
    CollectOutcome(vs, |vs|);
  }

  /** `calculate_centroids` (lines 96-116). Each feature's first ring is closed in
      place; the features after a failed descent are left as they were. */
  method CalculateCentroids(features: seq<Feature>, ops: GeoOps) returns (r: Result<seq<Centroid>, Failure>)
    requires forall i, j :: 0 <= i < j < |features| ==> features[i] != features[j]
    modifies features`coordinates
    ensures r == Centroids(old(Snapshot(features)), ops)
    ensures forall j :: 0 <= j < |features| ==>
      features[j].coordinates ==
        if j < Reached(Visits(old(Snapshot(features)), ops), |features|)
        then CloseFirstRing(old(features[j].coordinates)) else old(features[j].coordinates)
    ensures forall f :: f in features ==> f.properties == old(f.properties) && f.kind == old(f.kind)
  {
    ghost var snap := Snapshot(features);
    ghost var vs := Visits(snap, ops);
    var centroids: seq<Centroid> := [];
    var i := 0;
    while i < |features|
      invariant i <= |features|
      invariant forall j :: 0 <= j < i ==> vs[j].Ok?
      invariant Collect(vs, i) == Ok(centroids)
      invariant forall j :: 0 <= j < i ==> features[j].coordinates == CloseFirstRing(snap[j].0)
      invariant forall j :: i <= j < |features| ==> features[j].coordinates == snap[j].0
    {
      var visit := VisitAt(features, i, ops);
      assert visit == vs[i];
      if visit.Err? {
        CollectFailAt(vs, i);
        return Err(visit.error);
      }
      if visit.value.Some? {
        centroids := centroids + [visit.value.value];
      }
      i := i + 1;
    }
    assert Reached(vs, |features|) == |features|;
    r := Ok(centroids);
  }
}
