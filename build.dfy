/** `build_geojson` (Tools/bim_ifc_to_geojson_2d.py:133-146): a left join of the
    feature dicts with the property records and the centroids on the GlobalId, writing
    the selected properties and the centroid into each feature's own properties. */
module Build {
  import opened Wrappers
  import opened Shapes
  import opened Values
  import opened Converter
  import opened Centroids

  /** `{"type": "FeatureCollection", "features": enriched}`: the dict holds the very
      feature dicts it was given. */
  datatype FeatureCollection = FeatureCollection(features: seq<Feature>)

  /** `next((p for p in properties if p["IFC_ID"] == gid), {})`: the first record whose
      IFC_ID equals `gid`, or `{}`. Reading IFC_ID of a record that lacks it, before a
      match is found, raises KeyError. */
  function FindRecord(properties: seq<Record>, gid: Value): Result<Record, Failure>
  {
    if |properties| == 0 then Ok(map[])
    else if "IFC_ID" !in properties[0] then Err(KeyError("IFC_ID"))
    else if properties[0]["IFC_ID"] == gid then Ok(properties[0])
    else FindRecord(properties[1..], gid)
  }

  /** Record `i` is the first one with IFC_ID equal to `gid`, and every record before it
      has an IFC_ID. */
  ghost predicate FirstRecordMatch(properties: seq<Record>, gid: Value, i: nat)
  {
    && i < |properties| && "IFC_ID" in properties[i] && properties[i]["IFC_ID"] == gid
    && forall j :: 0 <= j < i ==> "IFC_ID" in properties[j] && properties[j]["IFC_ID"] != gid
  }

  /** The join finds the first matching record. */
  lemma {:induction false} FindRecordFirst(properties: seq<Record>, gid: Value, i: nat)
    requires FirstRecordMatch(properties, gid, i)
    ensures FindRecord(properties, gid) == Ok(properties[i])
  {
    if i > 0 {
      assert FirstRecordMatch(properties[1..], gid, i - 1) by {
        forall j | 0 <= j < i - 1
          ensures "IFC_ID" in properties[1..][j] && properties[1..][j]["IFC_ID"] != gid
        {
          assert properties[1..][j] == properties[j + 1];
        }
      }
      FindRecordFirst(properties[1..], gid, i - 1);
    }
  }

  /** With no matching record the join yields `{}`. */
  lemma {:induction false} FindRecordNone(properties: seq<Record>, gid: Value)
    requires forall j :: 0 <= j < |properties| ==> "IFC_ID" in properties[j] && properties[j]["IFC_ID"] != gid
    ensures FindRecord(properties, gid) == Ok(map[])
  {
    if |properties| > 0 {
      FindRecordNone(properties[1..], gid);
    }
  }

  /** A record without IFC_ID raises, unless a match comes before it. */
  lemma {:induction false} FindRecordMissingId(properties: seq<Record>, gid: Value, i: nat)
    requires i < |properties| && "IFC_ID" !in properties[i]
    requires forall j :: 0 <= j < i ==> "IFC_ID" in properties[j] && properties[j]["IFC_ID"] != gid
    ensures FindRecord(properties, gid) == Err(KeyError("IFC_ID"))
  {
    if i > 0 {
      FindRecordMissingId(properties[1..], gid, i - 1);
    }
  }

  /** `next((c for c in centroids if c["GlobalId"] == gid), {}).get("centroid")`: the
      point of the first centroid entry for `gid`, or None. */
  function FindCentroid(centroids: seq<Centroid>, gid: Value): Value
  {
    if |centroids| == 0 then Null
    else if centroids[0].globalId == gid then Pair(centroids[0].centroid)
    else FindCentroid(centroids[1..], gid)
  }

  /** Entry `i` is the first centroid entry for `gid`. */
  predicate FirstCentroidMatch(centroids: seq<Centroid>, gid: Value, i: int)
  {
    0 <= i < |centroids| && centroids[i].globalId == gid &&
    forall j :: 0 <= j < i ==> centroids[j].globalId != gid
  }

  /** The centroid written is that of the first entry for the GlobalId, or None when
      there is none. */
  lemma {:induction false} FindCentroidMeaning(centroids: seq<Centroid>, gid: Value)
    ensures FindCentroid(centroids, gid) == Null <==> forall j :: 0 <= j < |centroids| ==> centroids[j].globalId != gid
    ensures forall i :: FirstCentroidMatch(centroids, gid, i) ==>
      FindCentroid(centroids, gid) == Pair(centroids[i].centroid)
  {
    if |centroids| > 0 {
      var rest := centroids[1..];
      FindCentroidMeaning(rest, gid);
      forall i | 0 < i && FirstCentroidMatch(centroids, gid, i)
        ensures FindCentroid(centroids, gid) == Pair(centroids[i].centroid)
      {
        assert rest[i - 1] == centroids[i];
        forall j | 0 <= j < i - 1 ensures rest[j].globalId != gid {
          assert rest[j] == centroids[j + 1];
        }
      }
      if FindCentroid(centroids, gid) == Null {
        forall j | 0 <= j < |centroids| ensures centroids[j].globalId != gid {
          if j > 0 {
            assert centroids[j] == rest[j - 1];
          }
        }
      }
    }
  }

  /** `{k: prop.get(k, "N/A") for k in selected_props}`. */
  function Selected(rec: Record, selected: seq<string>): Record
  {
    map k | k in selected :: if k in rec then rec[k] else NotAvailable
  }

  /** The loop body on one feature's properties: the KeyError of `feat["properties"]
      ["GlobalId"]` or of the join, or the properties after `update`. */
  function Enrich(props: Record, centroids: seq<Centroid>, properties: seq<Record>, selected: seq<string>): Result<Record, Failure>
  {
    if "GlobalId" !in props then Err(KeyError("GlobalId"))
    else
      var gid := props["GlobalId"];
      match FindRecord(properties, gid)
      case Err(e) => Err(e)
      case Ok(rec) => Ok(props + Selected(rec, selected)["centroid" := FindCentroid(centroids, gid)])
  }

  /** After the update a feature holds every selected key, valued from the record found
      or "N/A", the centroid found, and its other properties as they were. */
  lemma EnrichMeaning(props: Record, centroids: seq<Centroid>, properties: seq<Record>, selected: seq<string>)
    requires Enrich(props, centroids, properties, selected).Ok?
    ensures var r := Enrich(props, centroids, properties, selected).value;
      var rec := FindRecord(properties, props["GlobalId"]).value;
      && r.Keys == props.Keys + (set k | k in selected) + {"centroid"}
      && r["centroid"] == FindCentroid(centroids, props["GlobalId"])
      && (forall k :: k in selected && k != "centroid" ==> r[k] == if k in rec then rec[k] else Text("N/A"))
      && (forall k :: k in props && k !in selected && k != "centroid" ==> r[k] == props[k])
  {
  }

  /** Feature dicts that have a GlobalId and records that all have an IFC_ID, as the
      converter and `extract_ifc_properties` produce them, never raise. */
  lemma EnrichSucceeds(props: Record, centroids: seq<Centroid>, properties: seq<Record>, selected: seq<string>)
    requires "GlobalId" in props
    requires forall j :: 0 <= j < |properties| ==> "IFC_ID" in properties[j]
    ensures Enrich(props, centroids, properties, selected).Ok?
  {
    var gid := props["GlobalId"];
    if j :| 0 <= j < |properties| && properties[j]["IFC_ID"] == gid {
      var i := FirstIndex(properties, gid, j);
      FindRecordFirst(properties, gid, i);
    } else {
      FindRecordNone(properties, gid);
    }
  }

  /** The first record matching `gid`, given that record `j` matches. */
  lemma {:induction false} FirstIndex(properties: seq<Record>, gid: Value, j: nat) returns (i: nat)
    requires forall k :: 0 <= k < |properties| ==> "IFC_ID" in properties[k]
    requires j < |properties| && properties[j]["IFC_ID"] == gid
    ensures i <= j && FirstRecordMatch(properties, gid, i)
  {
    if k :| 0 <= k < j && properties[k]["IFC_ID"] == gid {
      i := FirstIndex(properties, gid, k);
    } else {
      i := j;
    }
  }

  /** Running the update a second time with the same inputs changes nothing, as long as
      "GlobalId" is not among the selected keys. */
  lemma EnrichIdempotent(props: Record, centroids: seq<Centroid>, properties: seq<Record>, selected: seq<string>)
    requires Enrich(props, centroids, properties, selected).Ok?
    requires "GlobalId" !in selected
    ensures var once := Enrich(props, centroids, properties, selected).value;
      Enrich(once, centroids, properties, selected) == Ok(once)
  {
    var once := Enrich(props, centroids, properties, selected).value;
    assert once["GlobalId"] == props["GlobalId"];
    var gid := props["GlobalId"];
    var filtered := Selected(FindRecord(properties, gid).value, selected)["centroid" := FindCentroid(centroids, gid)];
    assert once + filtered == once;
  }

  /** When "GlobalId" is selected the update can rewrite the key the join reads: a
      feature with no property record gets GlobalId "N/A", and a second run no longer
      finds its centroid. */
  lemma ReapplyWithGlobalIdSelected()
    ensures var props := map["GlobalId" := Text("a")];
      var centroids := [Centroid(Text("a"), Point(1.0, 2.0))];
      var once := Enrich(props, centroids, [], ["GlobalId"]);
      && once.Ok? && once.value["centroid"] == Pair(Point(1.0, 2.0))
      && Enrich(once.value, centroids, [], ["GlobalId"]).Ok?
      && Enrich(once.value, centroids, [], ["GlobalId"]).value["centroid"] == Null
  {
    var props := map["GlobalId" := Text("a")];
    var centroids := [Centroid(Text("a"), Point(1.0, 2.0))];
    var once := Enrich(props, centroids, [], ["GlobalId"]).value;
    assert Selected(map[], ["GlobalId"]) == map["GlobalId" := NotAvailable];
    assert once["GlobalId"] == NotAvailable;
  }

  /** The properties dicts of the features, as one sequence. */
  function PropertiesOf(features: seq<Feature>): seq<Record>
    reads set f | f in features
  {
    seq(|features|, j reads set f | f in features requires 0 <= j < |features| => features[j].properties)
  }

  /** The loop body's outcome on each feature, from the properties it had. */
  function Outcomes(pss: seq<Record>, centroids: seq<Centroid>, properties: seq<Record>, selected: seq<string>): seq<Result<Record, Failure>>
  {
    seq(|pss|, j requires 0 <= j < |pss| => Enrich(pss[j], centroids, properties, selected))
  }

  /** `build_geojson` (lines 133-146). The features are updated in place in order; an
      exception leaves the features before it updated and the rest untouched. On
      success the collection holds the same feature dicts, in the same order. */
  method BuildGeojson(features: seq<Feature>, centroids: seq<Centroid>, properties: seq<Record>, selected: seq<string>)
    returns (r: Result<FeatureCollection, Failure>)
    requires forall i, j :: 0 <= i < j < |features| ==> features[i] != features[j]
    modifies features`properties
    ensures var es := Outcomes(old(PropertiesOf(features)), centroids, properties, selected);
      var k := Reached(es, |features|);
      && (r.Err? <==> k < |features|)
      && (r.Err? ==> r.error == es[k].error)
      && (r.Ok? ==> r.value == FeatureCollection(features))
      && forall j :: 0 <= j < |features| ==>
           features[j].properties == if j < k then es[j].value else old(features[j].properties)
  {
    ghost var before := PropertiesOf(features);
    ghost var es := Outcomes(before, centroids, properties, selected);
    var enriched: seq<Feature> := [];
    for i := 0 to |features|
      invariant enriched == features[..i]
      invariant forall j :: 0 <= j < i ==> es[j].Ok?
      invariant forall j :: 0 <= j < |features| ==>
        features[j].properties == if j < i then es[j].value else before[j]
    {
      var props := features[i].properties;
      if "GlobalId" !in props {
        ReachedStops(es, i, |features|);
        return Err(KeyError("GlobalId"));
      }
      var gid := props["GlobalId"];
      var prop := FindRecord(properties, gid);
      if prop.Err? {
        ReachedStops(es, i, |features|);
        return Err(prop.error);
      }
      var centroid := FindCentroid(centroids, gid);
      var filtered := Selected(prop.value, selected)["centroid" := centroid];
      features[i].properties := props + filtered;
      enriched := enriched + [features[i]];
    }
    r := Ok(FeatureCollection(enriched));
  }
}
