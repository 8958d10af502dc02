/** The logic embedded in the Streamlit script `BIM_a_GIS_2D.py`, lifted out of the UI:
    the session state and its defaults, the per-file model cache, the entity and
    property checkboxes, the confirmation that gathers the property records, and the
    processing run that builds the GeoJSON. Widgets are parameters: a checkbox is
    `ticked(label, default)`, the answer the user leaves on it. */
module App {
  import opened Wrappers
  import opened Shapes
  import opened Values
  import opened Ifc
  import opened Ordering
  import opened Flatten
  import opened Converter
  import opened Centroids
  import opened Properties
  import opened Build
  import opened Crs

  /** `st.session_state.ifc_models`: file name to model, in insertion order. */
  type Models = seq<(string, Model)>

  function FileNames(models: Models): set<string>
  {
    set p | p in models :: p.0
  }

  predicate DistinctNames(models: Models)
  {
    forall i, j :: 0 <= i < j < |models| ==> models[i].0 != models[j].0
  }

  /** `st.session_state.geojson_data`: None until a run produced features. */
  datatype GeoJsonData = NoData | Collection(collection: FeatureCollection)

  /** `d` when the key is absent, the stored value otherwise. */
  function Default<T>(o: Option<T>, d: T): (r: Option<T>)
    ensures r.Some?
    ensures o.Some? ==> r == o
    ensures o.None? ==> r.value == d
  {
    if o.Some? then o else Some(d)
  }

  /** Defaulting a second time changes nothing: reruns of the script keep the state. */
  lemma DefaultIdempotent<T>(o: Option<T>, d: T, e: T)
    ensures Default(Default(o, d), e) == Default(o, d)
  {
  }

  /** The keys of `st.session_state` the script uses; `None` is an absent key. */
  class Session {
    var ifcModels: Option<Models>
    var geojsonData: Option<GeoJsonData>
    var selectedProps: Option<seq<string>>
    var entityChoices: Option<seq<string>>
    var allProps: Option<seq<Record>>
    var availablePropKeys: Option<seq<string>>
    var crsInput: Option<string>

    /** A new browser session: no key is set. */
    constructor ()
      ensures ifcModels.None? && geojsonData.None? && selectedProps.None? && entityChoices.None?
      ensures allProps.None? && availablePropKeys.None? && crsInput.None?
    {
      ifcModels := None;
      geojsonData := None;
      selectedProps := None;
      entityChoices := None;
      allProps := None;
      availablePropKeys := None;
      crsInput := None;
    }

    ghost predicate Initialized()
      reads this
    {
      && ifcModels.Some? && geojsonData.Some? && selectedProps.Some? && entityChoices.Some?
      && allProps.Some? && availablePropKeys.Some? && crsInput.Some?
    }

    /** Lines 61-74: each absent key gets its default; present keys keep their value. */
    method InitDefaults()
      modifies this
      ensures Initialized()
      ensures ifcModels == Default(old(ifcModels), [])
      ensures geojsonData == Default(old(geojsonData), NoData)
      ensures selectedProps == Default(old(selectedProps), [])
      ensures entityChoices == Default(old(entityChoices), [])
      ensures allProps == Default(old(allProps), [])
      ensures availablePropKeys == Default(old(availablePropKeys), [])
      ensures crsInput == Default(old(crsInput), DefaultCrs)
    {
      ifcModels := Default(ifcModels, []);
      geojsonData := Default(geojsonData, NoData);
      selectedProps := Default(selectedProps, []);
      entityChoices := Default(entityChoices, []);
      allProps := Default(allProps, []);
      availablePropKeys := Default(availablePropKeys, []);
      crsInput := Default(crsInput, DefaultCrs);
    }

    /** Lines 112-119: every uploaded file whose name is not cached yet is loaded and
        stored under its name; cached entries are never replaced. `load` stands for
        writing the bytes to a temporary file and `load_ifc` on it. */
    method CacheModels(uploads: seq<(string, seq<bv8>)>, load: seq<bv8> -> Model)
      requires ifcModels.Some?
      modifies this`ifcModels
      ensures ifcModels == Some(Cached(old(ifcModels.value), uploads, load))
    {
      var models := ifcModels.value;
      for i := 0 to |uploads|
        invariant models == Cached(ifcModels.value, uploads[..i], load)
      {
        assert uploads[..i + 1][..i] == uploads[..i];
        var (name, content) := uploads[i];
        if name !in FileNames(models) {
          models := models + [(name, load(content))];
        }
      }
      assert uploads[..|uploads|] == uploads;
      ifcModels := Some(models);
    }

    /** Lines 140-156: the ticked types become the choice; the property records of
        every cached file and chosen type are gathered, each stamped with its file;
        the available keys are the sorted union of their keys. */
    method ConfirmEntities(choices: seq<string>)
      requires ifcModels.Some?
      modifies this`entityChoices, this`allProps, this`availablePropKeys
      ensures entityChoices == Some(choices)
      ensures allProps == Some(AllProps(ifcModels.value, choices))
      ensures availablePropKeys.Some? && StrictlySorted(availablePropKeys.value)
      ensures forall k :: k in availablePropKeys.value <==>
        exists j :: 0 <= j < |allProps.value| && k in allProps.value[j]
    {
      entityChoices := Some(choices);
      var all := GatherProps(ifcModels.value, choices);
      var sorted := SortedKeys(all);
      availablePropKeys := Some(sorted);
      allProps := Some(all);
    }

    /** Lines 170-190: the ticked keys become the selection; the features and
        centroids of every cached file and chosen type are gathered and, when there is
        at least one feature, joined with the property records into the GeoJSON that
        replaces the stored one. An exception stops the run with the GeoJSON as it was.
        The result is the number of features. */
    method Process(conv: Converter, selected: seq<string>, ops: GeoOps) returns (r: Result<nat, Failure>)
      requires ifcModels.Some? && entityChoices.Some? && allProps.Some?
      modifies this`selectedProps, this`geojsonData
      ensures selectedProps == Some(selected)
      ensures conv.transformer.None? && |ifcModels.value| > 0 && |entityChoices.value| > 0 ==>
        r == Err(TransformerUnset)
      ensures r.Ok? && conv.transformer.None? ==> r.value == 0
      ensures r.Ok? && conv.transformer.Some? ==>
        r.value == FeatureCount(ifcModels.value, entityChoices.value, conv.transformer.value, ops)
      ensures r.Ok? && r.value > 0 ==>
        geojsonData.Some? && geojsonData.value.Collection? && |geojsonData.value.collection.features| == r.value
      ensures !(r.Ok? && r.value > 0) ==> geojsonData == old(geojsonData)
    {
      selectedProps := Some(selected);
      var gathered := GatherFeatures(conv, ifcModels.value, entityChoices.value, ops);
      if gathered.Err? {
        return Err(gathered.error);
      }
      var (features, centroids) := gathered.value;
      if |features| > 0 {
        var built := BuildGeojson(features, centroids, allProps.value, selected);
        if built.Err? {
          return Err(built.error);
        }
        geojsonData := Some(Collection(built.value));
      }
      r := Ok(|features|);
    }
  }

  // ---------------------------------------------------------------------------
  // The property records
  // ---------------------------------------------------------------------------

  /** Every record with "Source_File" set to the file's name. */
  function Stamped(records: seq<Record>, name: string): (r: seq<Record>)
    ensures |r| == |records|
  {
    seq(|records|, j requires 0 <= j < |records| => records[j]["Source_File" := Text(name)])
  }

  /** The records one file contributes: for each chosen type, its records, stamped. */
  function FileProps(m: Model, name: string, choices: seq<string>): seq<Record>
  {
    if |choices| == 0 then []
    else FileProps(m, name, choices[..|choices| - 1]) + Stamped(Properties.Properties(m, choices[|choices| - 1]), name)
  }

  /** `all_props`: the records of every cached file, file by file. */
  function AllProps(models: Models, choices: seq<string>): seq<Record>
  {
    if |models| == 0 then []
    else AllProps(models[..|models| - 1], choices) + FileProps(models[|models| - 1].1, models[|models| - 1].0, choices)
  }

  function KeySets(records: seq<Record>): (r: seq<set<string>>)
    ensures |r| == |records|
    ensures forall j :: 0 <= j < |records| ==> r[j] == records[j].Keys
  {
    seq(|records|, j requires 0 <= j < |records| => records[j].Keys)
  }

  /** Lines 147-148: the records with the file's name stamped on them. */
  method StampRecords(records: seq<Record>, name: string) returns (r: seq<Record>)
    ensures r == Stamped(records, name)
  {
    r := records;
    for p := 0 to |r|
      invariant |r| == |records|
      invariant forall j :: 0 <= j < |r| ==> r[j] == if j < p then records[j]["Source_File" := Text(name)] else records[j]
    {
      r := r[p := r[p]["Source_File" := Text(name)]];
    }
  }

  /** Lines 145-149 for one file: the stamped records of each chosen type, in order. */
  method FileRecords(m: Model, name: string, choices: seq<string>) returns (records: seq<Record>)
    ensures records == FileProps(m, name, choices)
  {
    records := [];
    for c := 0 to |choices|
      invariant records == FileProps(m, name, choices[..c])
    {
      assert choices[..c + 1][..c] == choices[..c];
      var props := ExtractIfcProperties(m, choices[c]);
      props := StampRecords(props, name);
      records := records + props;
    }
    assert choices[..|choices|] == choices;
  }

  /** Lines 144-149: the records of every cached file, file by file. */
  method GatherProps(models: Models, choices: seq<string>) returns (all: seq<Record>)
    ensures all == AllProps(models, choices)
  {
    all := [];
    for i := 0 to |models|
      invariant all == AllProps(models[..i], choices)
    {
      assert models[..i + 1][..i] == models[..i];
      var records := FileRecords(models[i].1, models[i].0, choices);
      all := all + records;
    }
    assert models[..|models|] == models;
  }

  /** Lines 151-155: the keys of all records, each once, in increasing order. */
  method SortedKeys(records: seq<Record>) returns (keys: seq<string>)
    ensures StrictlySorted(keys)
    ensures forall k :: k in keys <==> exists j :: 0 <= j < |records| && k in records[j]
  {
    ghost var sets := KeySets(records);
    var all: set<string> := {};
    for j := 0 to |records|
      invariant all == Union(sets[..j])
    {
      assert sets[..j + 1][..j] == sets[..j];
      all := all + records[j].Keys;
    }
    assert sets[..|records|] == sets;
    keys := SortSet(all);
  }

  /** Every record of `extract_ifc_properties` holds IFC_ID and IFC_Type. */
  lemma PropertiesHaveIds(m: Model, t: string)
    ensures forall r: Record :: r in Properties.Properties(m, t) ==> "IFC_ID" in r && "IFC_Type" in r
  {
    forall r | r in Properties.Properties(m, t) ensures "IFC_ID" in r && "IFC_Type" in r {
      var k :| 0 <= k < |Properties.Properties(m, t)| && Properties.Properties(m, t)[k] == r;
      EntityRecordIds(m, ByType(m.entities, t)[k]);
    }
  }

  /** Each record a file contributes holds IFC_ID, IFC_Type and that file's name. */
  lemma {:induction false} FilePropsStamped(m: Model, name: string, choices: seq<string>)
    ensures forall r: Record :: r in FileProps(m, name, choices) ==>
      "IFC_ID" in r && "IFC_Type" in r && "Source_File" in r && r["Source_File"] == Text(name)
  {
    if |choices| > 0 {
      FilePropsStamped(m, name, choices[..|choices| - 1]);
      var props := Properties.Properties(m, choices[|choices| - 1]);
      PropertiesHaveIds(m, choices[|choices| - 1]);
      forall r | r in Stamped(props, name)
        ensures "IFC_ID" in r && "IFC_Type" in r && "Source_File" in r && r["Source_File"] == Text(name)
      {
        var j :| 0 <= j < |props| && Stamped(props, name)[j] == r;
        assert props[j] in props;
      }
    }
  }

  /** Every gathered record names one of the cached files as its source, and carries
      the keys that `build_geojson` looks up. */
  lemma {:induction false} AllPropsStamped(models: Models, choices: seq<string>)
    ensures forall r: Record :: r in AllProps(models, choices) ==>
      "IFC_ID" in r && "IFC_Type" in r && "Source_File" in r &&
      r["Source_File"].Text? && r["Source_File"].s in FileNames(models)
  {
    if |models| > 0 {
      var init := models[..|models| - 1];
      var last := models[|models| - 1];
      AllPropsStamped(init, choices);
      FilePropsStamped(last.1, last.0, choices);
      assert models == init + [last];
      assert FileNames(models) == FileNames(init) + {last.0};
    }
  }

  // ---------------------------------------------------------------------------
  // The processing run
  // ---------------------------------------------------------------------------

  /** What `calculate_centroids` reads of freshly extracted features. */
  function Entries(ds: seq<FeatureData>): (r: seq<(Coords, Record)>)
    ensures |r| == |ds|
    ensures forall i :: 0 <= i < |ds| ==> r[i] == (ds[i].coordinates, map["GlobalId" := Text(ds[i].globalId)])
  {
    seq(|ds|, i requires 0 <= i < |ds| => (ds[i].coordinates, map["GlobalId" := Text(ds[i].globalId)]))
  }

  /** The features one file and one chosen type give. */
  function PairFeatures(m: Model, choice: string, t: Transformer, ops: GeoOps): seq<FeatureData>
  {
    CleanGeometry(EntitiesWithGeometry(m, choice), t, ops)
  }

  /** The number of features one file gives over the chosen types. */
  function FileCount(m: Model, choices: seq<string>, t: Transformer, ops: GeoOps): nat
  {
    if |choices| == 0 then 0
    else FileCount(m, choices[..|choices| - 1], t, ops) + |PairFeatures(m, choices[|choices| - 1], t, ops)|
  }

  /** The number of features of a run over the cached files. */
  function FeatureCount(models: Models, choices: seq<string>, t: Transformer, ops: GeoOps): nat
  {
    if |models| == 0 then 0
    else FeatureCount(models[..|models| - 1], choices, t, ops) + FileCount(models[|models| - 1].1, choices, t, ops)
  }

  predicate Distinct(features: seq<Feature>)
  {
    forall i, j :: 0 <= i < j < |features| ==> features[i] != features[j]
  }

  /** Two runs of distinct features that share none are distinct together. */
  lemma DistinctJoin(a: seq<Feature>, b: seq<Feature>)
    requires Distinct(a) && Distinct(b)
    requires forall i, j :: 0 <= i < |a| && 0 <= j < |b| ==> a[i] != b[j]
    ensures Distinct(a + b)
  {
  }

  /** The feature dicts of one file and one type once the run is done with them: each
      has the kind of its geometry, its first ring closed, and its GlobalId and source
      file as properties. */
  predicate Built(features: seq<Feature>, ds: seq<FeatureData>, name: string)
    reads features
  {
    |features| == |ds| &&
    forall i {:trigger ds[i]} :: 0 <= i < |ds| ==>
      && features[i].kind == ds[i].kind
      && features[i].coordinates == CloseFirstRing(ds[i].coordinates)
      && features[i].properties == map["GlobalId" := Text(ds[i].globalId), "Source_File" := Text(name)]
  }

  /** Lines 179-180: `Source_File` is written into each feature's properties. */
  method StampFeatures(features: seq<Feature>, name: string)
    requires Distinct(features)
    modifies features`properties
    ensures forall j :: 0 <= j < |features| ==>
      features[j].properties == old(features[j].properties)["Source_File" := Text(name)]
  {
    for i := 0 to |features|
      invariant forall j :: 0 <= j < |features| ==>
        features[j].properties ==
          if j < i then old(features[j].properties)["Source_File" := Text(name)] else old(features[j].properties)
    {
      features[i].properties := features[i].properties["Source_File" := Text(name)];
    }
  }

  /** Lines 176-180 for one file and one chosen type: new features, their centroids
      taken before the file name is stamped on them, then the stamp. */
  method ProcessPair(conv: Converter, name: string, m: Model, choice: string, ops: GeoOps)
    returns (r: Result<(seq<Feature>, seq<Centroid>), Failure>)
    ensures conv.transformer.None? ==> r == Err(TransformerUnset)
    ensures conv.transformer.Some? ==>
      var ds := PairFeatures(m, choice, conv.transformer.value, ops);
      && (r.Ok? <==> Centroids.Centroids(Entries(ds), ops).Ok?)
      && (r.Err? ==> r.error == IndexError)
      && (r.Ok? ==> |r.value.0| == |ds| && r.value.1 == Centroids.Centroids(Entries(ds), ops).value)
      && (r.Ok? ==> Built(r.value.0, ds, name))
    ensures r.Ok? ==> Distinct(r.value.0) && forall i :: 0 <= i < |r.value.0| ==> fresh(r.value.0[i])
  {
    var extracted := conv.ExtractCleanGeometry2D(EntitiesWithGeometry(m, choice), ops);
    if extracted.Err? {
      return Err(extracted.error);
    }
    var features := extracted.value;
    ghost var ds := PairFeatures(m, choice, conv.transformer.value, ops);
    assert Snapshot(features) == Entries(ds);
    var centroids := CalculateCentroids(features, ops);
    CentroidsOutcome(Entries(ds), ops);
    CollectOutcome(Visits(Entries(ds), ops), |ds|);
    if centroids.Err? {
      return Err(centroids.error);
    }
    StampFeatures(features, name);
    r := Ok((features, centroids.value));
  }

  /** Lines 175-182 for one file: the features and centroids of each chosen type, in
      order. */
  method ProcessFile(conv: Converter, name: string, m: Model, choices: seq<string>, ops: GeoOps)
    returns (r: Result<(seq<Feature>, seq<Centroid>), Failure>)
    ensures conv.transformer.None? && |choices| > 0 ==> r == Err(TransformerUnset)
    ensures r.Ok? ==> |r.value.0| == if conv.transformer.Some? then FileCount(m, choices, conv.transformer.value, ops) else 0
    ensures r.Ok? ==> Distinct(r.value.0) && forall i :: 0 <= i < |r.value.0| ==> fresh(r.value.0[i])
  {
    var features: seq<Feature> := [];
    var centroids: seq<Centroid> := [];
    for c := 0 to |choices|
      invariant conv.transformer.None? ==> c == 0 && features == []
      invariant conv.transformer.Some? ==> |features| == FileCount(m, choices[..c], conv.transformer.value, ops)
      invariant Distinct(features) && forall i :: 0 <= i < |features| ==> fresh(features[i])
    {
      assert choices[..c + 1][..c] == choices[..c];
      var pair := ProcessPair(conv, name, m, choices[c], ops);
      if pair.Err? {
        return Err(pair.error);
      }
      DistinctJoin(features, pair.value.0);
      features := features + pair.value.0;
      centroids := centroids + pair.value.1;
    }
    assert choices[..|choices|] == choices;
    r := Ok((features, centroids));
  }

  /** Lines 172-182: the features and centroids of every cached file, file by file. */
  method GatherFeatures(conv: Converter, models: Models, choices: seq<string>, ops: GeoOps)
    returns (r: Result<(seq<Feature>, seq<Centroid>), Failure>)
    ensures conv.transformer.None? && |models| > 0 && |choices| > 0 ==> r == Err(TransformerUnset)
    ensures r.Ok? ==> |r.value.0| == if conv.transformer.Some? then FeatureCount(models, choices, conv.transformer.value, ops) else 0
    ensures r.Ok? ==> Distinct(r.value.0) && forall i :: 0 <= i < |r.value.0| ==> fresh(r.value.0[i])
  {
    var features: seq<Feature> := [];
    var centroids: seq<Centroid> := [];
    for i := 0 to |models|
      invariant conv.transformer.None? && |choices| > 0 ==> i == 0
      invariant |features| == if conv.transformer.Some? then FeatureCount(models[..i], choices, conv.transformer.value, ops) else 0
      invariant Distinct(features) && forall k :: 0 <= k < |features| ==> fresh(features[k])
    {
      assert models[..i + 1][..i] == models[..i];
      var file := ProcessFile(conv, models[i].0, models[i].1, choices, ops);
      if file.Err? {
        return Err(file.error);
      }
      DistinctJoin(features, file.value.0);
      features := features + file.value.0;
      centroids := centroids + file.value.1;
    }
    assert models[..|models|] == models;
    r := Ok((features, centroids));
  }

  // ---------------------------------------------------------------------------
  // The model cache
  // ---------------------------------------------------------------------------

  /** The cache after the uploads, one after another. */
  function Cached(models: Models, uploads: seq<(string, seq<bv8>)>, load: seq<bv8> -> Model): Models
  {
    if |uploads| == 0 then models
    else
      var before := Cached(models, uploads[..|uploads| - 1], load);
      var (name, content) := uploads[|uploads| - 1];
      if name in FileNames(before) then before else before + [(name, load(content))]
  }

  /** Caching keeps the old entries as they were and in front. */
  lemma {:induction false} CachedKeepsEntries(models: Models, uploads: seq<(string, seq<bv8>)>, load: seq<bv8> -> Model)
    ensures |models| <= |Cached(models, uploads, load)|
    ensures Cached(models, uploads, load)[..|models|] == models
  {
    if |uploads| > 0 {
      var init := uploads[..|uploads| - 1];
      CachedKeepsEntries(models, init, load);
      var before := Cached(models, init, load);
      var last := uploads[|uploads| - 1];
      if last.0 !in FileNames(before) {
        assert (before + [(last.0, load(last.1))])[..|models|] == before[..|models|];
      }
    }
  }

  /** The cached names after the uploads are the old ones and the uploaded ones, and
      no name is stored twice. */
  lemma CachedNames(models: Models, uploads: seq<(string, seq<bv8>)>, load: seq<bv8> -> Model)
    ensures FileNames(Cached(models, uploads, load)) == FileNames(models) + UploadNames(uploads)
    ensures DistinctNames(models) ==> DistinctNames(Cached(models, uploads, load))
  {
    CachedFileNames(models, uploads, load);
    if DistinctNames(models) {
      CachedDistinct(models, uploads, load);
    }
  }

  /** The names of the uploaded files. */
  function UploadNames(uploads: seq<(string, seq<bv8>)>): set<string>
  {
    set u | u in uploads :: u.0
  }

  lemma NamesAppend(models: Models, uploads: seq<(string, seq<bv8>)>, m: (string, Model), u: (string, seq<bv8>))
    ensures FileNames(models + [m]) == FileNames(models) + {m.0}
    ensures UploadNames(uploads + [u]) == UploadNames(uploads) + {u.0}
  {
  }

  lemma {:induction false} CachedFileNames(models: Models, uploads: seq<(string, seq<bv8>)>, load: seq<bv8> -> Model)
    ensures FileNames(Cached(models, uploads, load)) == FileNames(models) + UploadNames(uploads)
  {
    if |uploads| > 0 {
      var init := uploads[..|uploads| - 1];
      var last := uploads[|uploads| - 1];
      CachedFileNames(models, init, load);
      var before := Cached(models, init, load);
      assert uploads == init + [last];
      NamesAppend(before, init, (last.0, load(last.1)), last);
    }
  }

  lemma {:induction false} CachedDistinct(models: Models, uploads: seq<(string, seq<bv8>)>, load: seq<bv8> -> Model)
    requires DistinctNames(models)
    ensures DistinctNames(Cached(models, uploads, load))
  {
    if |uploads| > 0 {
      var init := uploads[..|uploads| - 1];
      var last := uploads[|uploads| - 1];
      CachedDistinct(models, init, load);
      var before := Cached(models, init, load);
      if last.0 !in FileNames(before) {
        var after := before + [(last.0, load(last.1))];
        forall i, j | 0 <= i < j < |after| ensures after[i].0 != after[j].0 {
          if j == |before| {
            assert before[i] in before;
          }
        }
      }
    }
  }

  /** A name the cache did not hold gets the model of its first upload. */
  lemma {:induction false} CachedFirstUploadWins(models: Models, uploads: seq<(string, seq<bv8>)>, load: seq<bv8> -> Model, i: nat)
    requires i < |uploads| && uploads[i].0 !in FileNames(models)
    requires forall j :: 0 <= j < i ==> uploads[j].0 != uploads[i].0
    ensures (uploads[i].0, load(uploads[i].1)) in Cached(models, uploads, load)
  {
    var init := uploads[..|uploads| - 1];
    if i == |uploads| - 1 {
      CachedNames(models, init, load);
      assert uploads[i].0 !in UploadNames(init) by {
        forall u | u in init ensures u.0 != uploads[i].0 {
          var j :| 0 <= j < |init| && init[j] == u;
        }
      }
    } else {
      CachedFirstUploadWins(models, init, load, i);
    }
  }

  // ---------------------------------------------------------------------------
  // Entity types and the checkboxes
  // ---------------------------------------------------------------------------

  /** The entries of one model's `get_entity_types` list, as a set: the types of its
      products and "IfcProduct". */
  function ModelTypes(m: Model): set<string>
  {
    set x | x in GetEntityTypes(m)
  }

  /** A model offers the types of its products and "IfcProduct" itself, so the type
      list is never empty once a model is cached. */
  lemma ModelTypesMeaning(m: Model)
    ensures ModelTypes(m) == ProductTagSet(m) + {"IfcProduct"}
  {
    var ts := GetEntityTypes(m);
    assert ts == ts[..|ts| - 1] + ["IfcProduct"];
  }

  /** The type sets of the cached models, in cache order. */
  function TypeSets(models: Models): (r: seq<set<string>>)
    ensures |r| == |models|
    ensures forall i :: 0 <= i < |models| ==> r[i] == ModelTypes(models[i].1)
  {
    seq(|models|, i requires 0 <= i < |models| => ModelTypes(models[i].1))
  }

  /** Lines 125-129: the union of `get_entity_types` over the cached models, sorted. */
  method EntityTypes(models: Models) returns (types: seq<string>)
    ensures StrictlySorted(types)
    ensures forall x :: x in types <==> exists i :: 0 <= i < |models| && x in ModelTypes(models[i].1)
  {
    ghost var sets := TypeSets(models);
    var all: set<string> := {};
    for i := 0 to |models|
      invariant all == Union(sets[..i])
    {
      assert sets[..i + 1][..i] == sets[..i];
      all := all + ModelTypes(models[i].1);
    }
    assert sets[..|models|] == sets;
    types := SortSet(all);
  }

  /** The entries of `items` that `keep` accepts, in order. */
  function Kept(items: seq<string>, keep: string -> bool): (r: seq<string>)
    ensures forall x :: x in r <==> x in items && keep(x)
    ensures |r| <= |items|
  {
    if |items| == 0 then []
    else
      var rest := Kept(items[..|items| - 1], keep);
      assert forall x :: x in items <==> x in items[..|items| - 1] || x == items[|items| - 1];
      if keep(items[|items| - 1]) then rest + [items[|items| - 1]] else rest
  }

  /** Keeping every entry keeps the sequence. */
  lemma {:induction false} KeptAll(items: seq<string>, keep: string -> bool)
    requires forall x :: x in items ==> keep(x)
    ensures Kept(items, keep) == items
  {
    if |items| > 0 {
      KeptAll(items[..|items| - 1], keep);
      assert items == items[..|items| - 1] + [items[|items| - 1]];
    }
  }

  /** Line 136: a type's box starts ticked when "select all" is on, when the type was
      chosen before, or for "IfcProduct". */
  predicate EntityDefault(etype: string, allSelected: bool, previous: seq<string>)
  {
    allSelected || etype in previous || etype == "IfcProduct"
  }

  /** Line 165: a property's box starts ticked when it was selected before or is one
      of the identifying keys. */
  predicate PropDefault(prop: string, previous: seq<string>)
  {
    prop in previous || prop in ["IFC_ID", "IFC_Type", "Source_File"]
  }

  function EntityBoxes(allSelected: bool, previous: seq<string>, ticked: (string, bool) -> bool): string -> bool
  {
    etype => ticked(etype, EntityDefault(etype, allSelected, previous))
  }

  function PropBoxes(previous: seq<string>, ticked: (string, bool) -> bool): string -> bool
  {
    prop => ticked(prop, PropDefault(prop, previous))
  }

  /** The user leaves every box as it starts. */
  ghost predicate Untouched(ticked: (string, bool) -> bool)
  {
    forall x, b :: ticked(x, b) == b
  }

  /** Lines 134-138: the ticked types, in list order. */
  method ChooseEntities(types: seq<string>, allSelected: bool, previous: seq<string>, ticked: (string, bool) -> bool)
    returns (choices: seq<string>)
    ensures choices == Kept(types, EntityBoxes(allSelected, previous, ticked))
  {
    choices := [];
    for i := 0 to |types|
      invariant choices == Kept(types[..i], EntityBoxes(allSelected, previous, ticked))
    {
      assert types[..i + 1][..i] == types[..i];
      if ticked(types[i], EntityDefault(types[i], allSelected, previous)) {
        choices := choices + [types[i]];
      }
    }
    assert types[..|types|] == types;
  }

  /** Lines 161-168: the ticked property keys, in list order. */
  method ChooseProps(keys: seq<string>, previous: seq<string>, ticked: (string, bool) -> bool)
    returns (selected: seq<string>)
    ensures selected == Kept(keys, PropBoxes(previous, ticked))
  {
    selected := [];
    for i := 0 to |keys|
      invariant selected == Kept(keys[..i], PropBoxes(previous, ticked))
    {
      assert keys[..i + 1][..i] == keys[..i];
      if ticked(keys[i], PropDefault(keys[i], previous)) {
        selected := selected + [keys[i]];
      }
    }
    assert keys[..|keys|] == keys;
  }

  /** Left as they start, the entity boxes select "IfcProduct" and every type chosen
      before that is still listed, and with "select all" every type. */
  lemma UntouchedEntityBoxes(types: seq<string>, allSelected: bool, previous: seq<string>, ticked: (string, bool) -> bool)
    requires Untouched(ticked)
    ensures forall x :: x in Kept(types, EntityBoxes(allSelected, previous, ticked)) <==>
      x in types && (allSelected || x in previous || x == "IfcProduct")
    ensures allSelected ==> Kept(types, EntityBoxes(allSelected, previous, ticked)) == types
  {
    var keep := EntityBoxes(allSelected, previous, ticked);
    assert forall x :: keep(x) == EntityDefault(x, allSelected, previous);
    if allSelected {
      KeptAll(types, keep);
    }
  }

  /** Left as they start, the property boxes select the identifying keys and every
      key selected before that is still available. */
  lemma UntouchedPropBoxes(keys: seq<string>, previous: seq<string>, ticked: (string, bool) -> bool)
    requires Untouched(ticked)
    ensures forall x :: x in Kept(keys, PropBoxes(previous, ticked)) <==>
      x in keys && (x in previous || x == "IFC_ID" || x == "IFC_Type" || x == "Source_File")
  {
    var keep := PropBoxes(previous, ticked);
    assert forall x :: keep(x) == PropDefault(x, previous);
  }
}
