/** The converter's module-level state and its two entry points that read a model:
    `set_transformer`, `get_entity_types` and `extract_clean_geometry_2D`
    (Tools/bim_ifc_to_geojson_2d.py:9-94). */
module Converter {
  import opened Wrappers
  import opened Shapes
  import opened Values
  import opened Ifc
  import opened Ordering
  import opened Flatten

  /** The exceptions that escape the converter's functions. */
  datatype Failure =
    | TransformerUnset    // the ValueError of line 43
    | IndexError          // `coords[0]` on an empty list (line 100)
    | KeyError(key: string)

  /** A GeoJSON feature dict: `geometry.type`, `geometry.coordinates` and
      `properties`. The dicts are shared and updated in place by the later stages. */
  class Feature {
    var kind: string
    var coordinates: Coords
    var properties: Record

    /** The dict built at lines 82-91: properties hold the GlobalId only. */
    constructor (d: FeatureData)
      ensures kind == d.kind && coordinates == d.coordinates
      ensures properties == map["GlobalId" := Text(d.globalId)]
    {
      kind := d.kind;
      coordinates := d.coordinates;
      properties := map["GlobalId" := Text(d.globalId)];
    }
  }

  /** The feature dict holds exactly what `d` describes. */
  ghost predicate Holds(f: Feature, d: FeatureData)
    reads f
  {
    f.kind == d.kind && f.coordinates == d.coordinates
    && f.properties == map["GlobalId" := Text(d.globalId)]
  }

  /** The type tags of a model's products, as `get_entity_types` collects them. */
  function ProductTags(m: Model): (tags: seq<string>)
    ensures |tags| == |ByType(m.entities, "IfcProduct")|
    ensures forall i :: 0 <= i < |tags| ==> tags[i] == ByType(m.entities, "IfcProduct")[i].typeTag
  {
    var ps := ByType(m.entities, "IfcProduct");
    seq(|ps|, i requires 0 <= i < |ps| => ps[i].typeTag)
  }

  /** The type tags of the entities that are products. */
  ghost function ProductTagSet(m: Model): set<string>
  {
    set e | e in m.entities && IsA(e, "IfcProduct") :: e.typeTag
  }

  lemma ProductTagsAreTagSet(m: Model)
    ensures (set x | x in ProductTags(m)) == ProductTagSet(m)
  {
    var ps := ByType(m.entities, "IfcProduct");
    forall x | x in ProductTagSet(m) ensures x in ProductTags(m) {
      var e :| e in m.entities && IsA(e, "IfcProduct") && e.typeTag == x;
      assert e in ps;
      var i :| 0 <= i < |ps| && ps[i] == e;
      assert ProductTags(m)[i] == x;
    }
    forall x | x in ProductTags(m) ensures x in ProductTagSet(m) {
      var i :| 0 <= i < |ps| && ProductTags(m)[i] == x;
      assert ps[i] in ps;
    }
  }

  /** `get_entity_types` (lines 19-23): the distinct type tags of the products in
      ascending order, then "IfcProduct" once more at the end. */
  function GetEntityTypes(m: Model): (types: seq<string>)
    ensures |types| == |ProductTagSet(m)| + 1
    ensures types[|types| - 1] == "IfcProduct"
    ensures StrictlySorted(types[..|types| - 1])
    ensures forall i :: 0 <= i < |types| - 1 ==> types[i] in ProductTagSet(m)
    ensures forall x :: x in ProductTagSet(m) ==> x in types[..|types| - 1]
  {
    var sorted := SortedUnique(ProductTags(m));
    SortedUniqueLength(ProductTags(m));
    ProductTagsAreTagSet(m);
    assert (sorted + ["IfcProduct"])[..|sorted|] == sorted;
    sorted + ["IfcProduct"]
  }

  /** A product whose class is IfcProduct itself puts "IfcProduct" in the list twice:
      once among the sorted tags and once appended. IfcProduct is abstract in the IFC
      schemas, so a conforming file holds no such entity; the lemma records what the
      code does with a file that does not conform. */
  lemma GetEntityTypesRepeatsIfcProduct(m: Model, e: Entity)
    requires e in m.entities && e.typeTag == "IfcProduct"
    ensures multiset(GetEntityTypes(m))["IfcProduct"] == 2
  {
    var types := GetEntityTypes(m);
    var init := types[..|types| - 1];
    assert types == init + ["IfcProduct"];
    assert "IfcProduct" in ProductTagSet(m);
    StrictlySortedCountsOnce(init, "IfcProduct");
  }

  lemma {:induction false} StrictlySortedCountsOnce(s: seq<string>, x: string)
    requires StrictlySorted(s) && x in s
    ensures multiset(s)[x] == 1
  {
    assert s == [s[0]] + s[1..];
    if s[0] == x {
      assert x !in s[1..] by {
        forall j | 1 <= j < |s| ensures s[j] != x {
          assert StrLt(s[0], s[j]);
        }
      }
    } else {
      StrictlySortedCountsOnce(s[1..], x);
    }
  }

  /** The module with its one global: the transformer that `app.py` installs. */
  class Converter {
    var transformer: Option<Transformer>

    /** Module load: `transformer = None` (line 10). */
    constructor ()
      ensures transformer.None?
    {
      transformer := None;
    }

    /** `set_transformer` (lines 12-14). */
    method SetTransformer(t: Option<Transformer>)
      modifies this
      ensures transformer == t
    {
      transformer := t;
    }

    /** `extract_clean_geometry_2D` (lines 41-94): raises when no transformer is set,
      before any entity is looked at; otherwise one new feature dict for every entity
      that is not skipped, in entity order. */
    method ExtractCleanGeometry2D(entities: seq<Entity>, ops: GeoOps) returns (r: Result<seq<Feature>, Failure>)
      ensures r.Err? <==> transformer.None?
      ensures r.Err? ==> r.error == TransformerUnset
      ensures r.Ok? ==> |r.value| == |CleanGeometry(entities, transformer.value, ops)|
      ensures r.Ok? ==> forall i :: 0 <= i < |r.value| ==>
        fresh(r.value[i]) && Holds(r.value[i], CleanGeometry(entities, transformer.value, ops)[i])
      ensures r.Ok? ==> forall i, j :: 0 <= i < j < |r.value| ==> r.value[i] != r.value[j]
    {
      if transformer.None? {
        return Err(TransformerUnset);
      }
      var t := transformer.value;
      var features: seq<Feature> := [];
      for k := 0 to |entities|
        invariant |features| == |CleanGeometry(entities[..k], t, ops)|
        invariant forall i :: 0 <= i < |features| ==>
          fresh(features[i]) && Holds(features[i], CleanGeometry(entities[..k], t, ops)[i])
        invariant forall i, j :: 0 <= i < j < |features| ==> features[i] != features[j]
      {
        assert entities[..k + 1][..k] == entities[..k];
        var f := FlattenEntity(entities[k], t, ops);
        if f.Some? {
          var feature := new Feature(f.value);
          features := features + [feature];
        }
      }
      assert entities[..|entities|] == entities;
      r := Ok(features);
    }
  }
}
