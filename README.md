# BIM to GIS 2D, modelled in Dafny

This project models the core of a small Streamlit application that turns IFC building
models into a 2D GeoJSON layer. The core has two parts.

- The converter module `Tools/bim_ifc_to_geojson_2d.py` does the following:
  - It holds a module-level pyproj transformer.
  - It lists the entity types of a model.
  - It flattens each entity's triangulated mesh into a footprint. Each face is reprojected to lon/lat, duplicate triangles are dropped by a sorted-position key, and the rest are merged with `unary_union`.
  - It computes a centroid per feature from the feature's first ring.
  - It collects the IFC property sets of every entity of a type.
  - It left-joins those records and the centroids into the features' properties.
- The glue in `BIM_a_GIS_2D.py` does the following:
  - It sets the session-state defaults.
  - It reads the `source → target` CRS text and installs the transformer.
  - It caches the uploaded models by file name.
  - It offers the entity types and the property keys as checkboxes.
  - It gathers the stamped property records.
  - It runs the conversion over every cached file and chosen type.
  - It groups the resulting features by source file, one colour per group.

The model follows the code's own form:
- Feature dicts, the converter's global and the Streamlit session are classes whose methods update their fields in place.
- Each loop is a method proved equal to a function on the inputs.
- The properties of those functions are proved as lemmas.

The modules are:
- `Wrappers`: Option, Result, and where a loop stops at its first exception.
- `Ordering`: Python's string order, `sorted(set(...))`.
- `Shapes`: points, `sorted` on positions, and shapely/pyproj as parameters.
- `Values`: JSON-like property values.
- `Ifc`: entities, meshes, property sets.
- `Flatten`: the per-entity work of `extract_clean_geometry_2D`.
- `Converter`: the module's global, `get_entity_types`, `extract_clean_geometry_2D`.
- `Centroids`: `calculate_centroids`.
- `Properties`: `extract_ifc_properties`.
- `Build`: `build_geojson`.
- `Crs`: the CRS text.
- `App`: the Streamlit session and its steps.
- `Grouping`: the map layers.

The triangle key is `sorted` of the *closed* ring, so the first vertex is counted twice and the key depends on winding:
- a face and its reversal over three distinct positions have different keys, and both are kept (`Flatten.KeyOfReversedFaceDiffers`);
- over three distinct positions, a face keeps its key exactly under the permutations that keep its first vertex: swapping the second and third vertex keeps it (`Flatten.KeyIgnoresSwapOfLastTwo`), any other permutation changes it (`Flatten.KeyFixesFirstVertex`, `Flatten.KeyOfRotatedFaceDiffers`);
- when exactly one of the second and third vertex equals the first, even that swap changes the key (`Flatten.KeyOfDegenerateSwapDiffers`).

The MultiPolygon coordinates are modelled as the converter writes them: one list holding every part's exterior ring (`Flatten.MultiPolygonCoords`).

## Model

| member | source | states |
|---|---|---|
| Ordering.SortedUnique | Tools/bim_ifc_to_geojson_2d.py:20-21 | `sorted(set(xs))` is strictly increasing and holds exactly the values of `xs` |
| Ordering.StrictlySortedUnique | Tools/bim_ifc_to_geojson_2d.py:21 | two strictly increasing lists with the same members are equal, so the sorted list is determined by the set |
| Ordering.SortedUniqueLength | Tools/bim_ifc_to_geojson_2d.py:20-21 | the sorted list has one entry per distinct value |
| Ordering.SortSet | BIM_a_GIS_2D.py:129 | `sorted(s)` of a set of strings: strictly increasing, same members, one entry per member |
| Ordering.StrLeTotal | BIM_a_GIS_2D.py:129 | Python's string order is total, so any two strings can be sorted |
| Ordering.StrLeTransitive | BIM_a_GIS_2D.py:129 | Python's string order is transitive |
| Ordering.StrLeAntisymmetric | BIM_a_GIS_2D.py:129 | strings ordered both ways are equal |
| Ordering.Union | BIM_a_GIS_2D.py:126-128 | a value is in the union exactly when some set holds it |
| Shapes.SortPointsCorrect | Tools/bim_ifc_to_geojson_2d.py:68 | `sorted(coords)` on `[lon, lat]` positions is sorted lexicographically and is a permutation of `coords` |
| Shapes.SortedPointsUnique | Tools/bim_ifc_to_geojson_2d.py:68 | two sorted permutations of the same positions are equal, so the key depends only on the multiset of positions |
| Ifc.ByType | Tools/bim_ifc_to_geojson_2d.py:20 | `by_type(t)` returns exactly the entities that are instances of `t` or of a subtype |
| Ifc.EntitiesWithGeometry | Tools/bim_ifc_to_geojson_2d.py:25-39 | the entities of the type whose shape generation succeeds, and only those |
| Ifc.ByTypeAppend | Tools/bim_ifc_to_geojson_2d.py:30 | `by_type` keeps the model's order: the result for a concatenation is the concatenation of the results |
| Ifc.ByTypeOfOne | Tools/bim_ifc_to_geojson_2d.py:30 | a single entity is returned once exactly when it is an instance of the type |
| Ifc.WithShapeAppend | Tools/bim_ifc_to_geojson_2d.py:32-38 | the geometry filter keeps the order of the entities: the result for a concatenation is the concatenation of the results |
| Ifc.WithShapeOfOne | Tools/bim_ifc_to_geojson_2d.py:32-38 | a single entity is kept once exactly when its shape can be generated |
| Flatten.PySlice | Tools/bim_ifc_to_geojson_2d.py:61 | a Python slice never raises and is never longer than the list |
| Flatten.VertexXYIsSliceUnpacking | Tools/bim_ifc_to_geojson_2d.py:61 | `x, y, _ = verts[3k:3k+3]` succeeds exactly when the slice has three numbers, and then reads its first two |
| Flatten.VertexXYNonNegative | Tools/bim_ifc_to_geojson_2d.py:61 | for k >= 0 the unpacking succeeds iff vertex k lies inside `verts`, and reads its x and y |
| Flatten.VertexXYNegative | Tools/bim_ifc_to_geojson_2d.py:61 | a negative index wraps around as in Python: -1 always raises, k <= -2 reads a vertex counted from the end when there is one |
| Flatten.FaceRingShape | Tools/bim_ifc_to_geojson_2d.py:58-66 | a face that can be read gives a closed ring of four positions, or of three when the third vertex lands on the first |
| Flatten.KeyIsMultiset | Tools/bim_ifc_to_geojson_2d.py:68-69 | two rings share a key exactly when they hold the same positions the same number of times |
| Flatten.KeyIgnoresSwapOfLastTwo | Tools/bim_ifc_to_geojson_2d.py:65-68 | swapping a face's second and third vertex keeps its key unless exactly one of them equals the first |
| Flatten.KeyOfDegenerateSwapDiffers | Tools/bim_ifc_to_geojson_2d.py:65-68 | when exactly one of those vertices equals the first, the swap changes the key |
| Flatten.KeyOfReversedFaceDiffers | Tools/bim_ifc_to_geojson_2d.py:65-68 | a face and its reversal over three distinct positions have different keys, so both are kept |
| Flatten.KeyFixesFirstVertex | Tools/bim_ifc_to_geojson_2d.py:65-68 | over three distinct positions, a face with the same key as another starts at the same vertex and has the same other two |
| Flatten.RingCountFixesFirstVertex | Tools/bim_ifc_to_geojson_2d.py:65-68 | in a closed ring over three distinct positions only the first vertex occurs twice, so equal position counts fix the first vertex and the other two |
| Flatten.KeyOfRotatedFaceDiffers | Tools/bim_ifc_to_geojson_2d.py:65-68 | both rotations of a face over three distinct positions change its key |
| Flatten.ScanNoneStays | Tools/bim_ifc_to_geojson_2d.py:50-93 | once a face raises, the rest of the face loop cannot undo it: the entity is skipped |
| Flatten.StepRepresents | Tools/bim_ifc_to_geojson_2d.py:68-71 | one iteration keeps the ring iff its key is new, records the key, and fails iff `Polygon` rejects the ring |
| Flatten.ScanIsFirstOccurrences | Tools/bim_ifc_to_geojson_2d.py:56-71 | the face loop succeeds iff every face reads and every new ring has at least four positions; then it keeps exactly the first ring of every key, in face order |
| Flatten.FirstOccurrencesDistinctKeys | Tools/bim_ifc_to_geojson_2d.py:68-71 | no two kept polygons share a key, and each kept polygon is one of the face rings |
| Flatten.FirstOccurrencesCount | Tools/bim_ifc_to_geojson_2d.py:68-71 | the kept polygons cover every key, one polygon per distinct key |
| Flatten.FirstOccurrenceKept | Tools/bim_ifc_to_geojson_2d.py:68-71 | a ring whose key does not occur earlier is kept |
| Flatten.EntityFeatureShape | Tools/bim_ifc_to_geojson_2d.py:73-91 | an emitted feature carries its entity's GlobalId and is a Polygon with one exterior ring or a MultiPolygon with one ring per part |
| Flatten.KeptRingsAreClosed | Tools/bim_ifc_to_geojson_2d.py:58-71 | every polygon that survives the face loop is a closed ring of four positions |
| Flatten.SingleTriangleUsedDirectly | Tools/bim_ifc_to_geojson_2d.py:73-79 | with one surviving triangle, `unary_union` is not called and the feature is that triangle when shapely finds it valid |
| Flatten.RingsAreFaceRings | Tools/bim_ifc_to_geojson_2d.py:58-66 | every ring scanned is the successfully read ring of some face |
| Flatten.NoFacesNoFeature | Tools/bim_ifc_to_geojson_2d.py:73-75 | an entity whose mesh has no face gives no feature |
| Flatten.MalformedFaceSkipsEntity | Tools/bim_ifc_to_geojson_2d.py:58-62 | one face with an index out of range skips the whole entity |
| Flatten.DegenerateFaceSkipsEntity | Tools/bim_ifc_to_geojson_2d.py:65-71 | a face whose third vertex projects onto its first makes `Polygon` raise on a three-position ring, skipping the entity |
| Flatten.CleanGeometryAtMostOnePerEntity | Tools/bim_ifc_to_geojson_2d.py:49-94 | no more features than entities, each the feature of some entity |
| Flatten.CleanGeometryOfOne | Tools/bim_ifc_to_geojson_2d.py:49-94 | one entity gives its feature, or nothing when it is skipped; with `CleanGeometryAppend` this means one feature per kept entity, in entity order |
| Flatten.CleanGeometryAppend | Tools/bim_ifc_to_geojson_2d.py:49-94 | the entities are processed independently: the features of a concatenation are the concatenated features |
| Flatten.CleanGeometryIds | Tools/bim_ifc_to_geojson_2d.py:88-90 | every feature's GlobalId is that of an entity of the input list |
| Flatten.ReadFace | Tools/bim_ifc_to_geojson_2d.py:59-66 | the loop over a face's three vertices computes the face's closed ring, or the failure |
| Flatten.EmitFeature | Tools/bim_ifc_to_geojson_2d.py:73-91 | no polygon emits nothing; one polygon is emitted as a `Polygon` of its own ring exactly when it is non-empty and valid; several are emitted exactly when their union exists, is non-empty, valid and a Polygon or MultiPolygon, with the kind of the union, its coordinates and the entity's GlobalId |
| Flatten.FlattenEntity | Tools/bim_ifc_to_geojson_2d.py:50-93 | the body of the entity loop, exception handler included, computes the entity's feature or its skip |
| Converter.Feature.constructor | Tools/bim_ifc_to_geojson_2d.py:82-91 | a new feature dict holds the geometry and only the GlobalId as property |
| Converter.ProductTagsAreTagSet | Tools/bim_ifc_to_geojson_2d.py:20 | the set comprehension collects exactly the class names of the products |
| Converter.GetEntityTypes | Tools/bim_ifc_to_geojson_2d.py:19-23 | the distinct product class names strictly increasing, then "IfcProduct" appended: one entry more than there are names |
| Converter.GetEntityTypesRepeatsIfcProduct | Tools/bim_ifc_to_geojson_2d.py:20-22 | a product whose own class is IfcProduct puts "IfcProduct" in the list twice |
| Converter.Converter.constructor | Tools/bim_ifc_to_geojson_2d.py:10 | the module starts without a transformer |
| Converter.Converter.SetTransformer | Tools/bim_ifc_to_geojson_2d.py:12-14 | the global becomes the given transformer |
| Converter.Converter.ExtractCleanGeometry2D | Tools/bim_ifc_to_geojson_2d.py:41-94 | raises the ValueError iff no transformer is set; otherwise returns new, distinct feature dicts, one per entry of the per-entity reference definition |
| Centroids.DescendShape | Tools/bim_ifc_to_geojson_2d.py:99-101 | the descent stops at a position or at a list starting with a position, and raises IndexError iff it meets an empty list |
| Centroids.CloseFirstRingAtDescent | Tools/bim_ifc_to_geojson_2d.py:99-105 | the descent of the result is the closed ring; every list on the chain of first elements keeps its length and its later entries, and the list reached only has entries appended; an already closed ring leaves the feature unchanged |
| Centroids.CloseFirstRingWhenDescentFails | Tools/bim_ifc_to_geojson_2d.py:99-101 | a feature whose descent raises is left as it was |
| Centroids.CloseRingCloses | Tools/bim_ifc_to_geojson_2d.py:102-105 | a ring of three or more entries ends with its first entry after the append, and a second append adds nothing |
| Centroids.CloseFirstRingIdempotent | Tools/bim_ifc_to_geojson_2d.py:104-105 | closing twice is closing once |
| Centroids.RingPointsMeaning | Tools/bim_ifc_to_geojson_2d.py:107 | `Polygon(coords)` accepts the ring iff every entry is a position, and uses those positions in order |
| Centroids.CentroidForAfterClosing | Tools/bim_ifc_to_geojson_2d.py:102-115 | closing the ring in place does not change the centroid a later pass computes |
| Centroids.VisitMeaning | Tools/bim_ifc_to_geojson_2d.py:99-115 | the loop body raises IndexError iff the descent does, and otherwise yields the ring's centroid or nothing |
| Centroids.CollectOutcome | Tools/bim_ifc_to_geojson_2d.py:96-116 | the loop raises the first exception met; otherwise it returns no more centroids than outcomes, each one an outcome's centroid |
| Centroids.CollectAppend | Tools/bim_ifc_to_geojson_2d.py:96-116 | the loop over two runs of outcomes raises the first exception met, and otherwise returns the centroids of the first run followed by those of the second |
| Centroids.CentroidsOutcome | Tools/bim_ifc_to_geojson_2d.py:96-116 | `calculate_centroids` raises IndexError iff some feature's descent meets an empty list; otherwise each centroid comes from a feature |
| Centroids.CentroidsAppend | Tools/bim_ifc_to_geojson_2d.py:96-116 | over two runs of features it raises iff either run does, and otherwise returns the centroids of the first run followed by those of the second |
| Centroids.CentroidsOfOne | Tools/bim_ifc_to_geojson_2d.py:99-115 | one feature gives IndexError when its descent fails, its centroid when it has one, and nothing otherwise; with `CentroidsAppend` this means every feature with a centroid contributes it once, in feature order |
| Centroids.RingCoordsReadBack | Tools/bim_ifc_to_geojson_2d.py:77-79 | the ring coordinates the converter writes are read back by `Polygon(coords)` as exactly the ring's points |
| Centroids.CentroidForMeaning | Tools/bim_ifc_to_geojson_2d.py:106-113 | a centroid carries its feature's GlobalId and is shapely's centroid of a valid polygon over the closed ring |
| Centroids.DescendPolygonFeature | Tools/bim_ifc_to_geojson_2d.py:79 | for a Polygon feature of the converter the descent reaches its exterior ring |
| Centroids.DescendMultiPolygonFeature | Tools/bim_ifc_to_geojson_2d.py:77 | for a MultiPolygon feature it reaches the first part's exterior, or raises when that ring is empty |
| Centroids.RevisitIsHarmless | Tools/bim_ifc_to_geojson_2d.py:99-115 | a second pass over the same features fails exactly as the first, computes the same centroids and changes nothing more |
| Centroids.FirstRing | Tools/bim_ifc_to_geojson_2d.py:100-101 | the `while` loop computes the descent |
| Centroids.VisitFeature | Tools/bim_ifc_to_geojson_2d.py:99-115 | one loop body on a feature dict: its outcome, its first ring closed in place, nothing changed when it raises |
| Centroids.VisitAt | Tools/bim_ifc_to_geojson_2d.py:98-115 | the body on one of distinct features leaves the others as they were |
| Centroids.CalculateCentroids | Tools/bim_ifc_to_geojson_2d.py:96-116 | returns the reference outcome on the features as they were; every feature the loop passed has its first ring closed, the rest are unchanged, properties are never touched |
| Properties.AssignAppend | Tools/bim_ifc_to_geojson_2d.py:122-129 | assignments made in two runs equal the assignments made in one |
| Properties.AssignKeys | Tools/bim_ifc_to_geojson_2d.py:129 | the record's keys are its original keys and every property name assigned |
| Properties.AssignLastWins | Tools/bim_ifc_to_geojson_2d.py:129 | a name assigned several times keeps its last value |
| Properties.AssignUntouched | Tools/bim_ifc_to_geojson_2d.py:129 | a name never assigned keeps its original entry or its absence |
| Properties.PropAssignmentsMeaning | Tools/bim_ifc_to_geojson_2d.py:126-129 | a property set assigns exactly its IfcPropertySingleValue properties, a missing NominalValue as "N/A" |
| Properties.AssignmentsMeaning | Tools/bim_ifc_to_geojson_2d.py:122-129 | an entity receives exactly the assignments of property sets related to it by IfcRelDefinesByProperties |
| Properties.RelAssignmentsMeaning | Tools/bim_ifc_to_geojson_2d.py:123-125 | a relationship contributes only when it lists the entity and points at an IfcPropertySet |
| Properties.PropertiesShape | Tools/bim_ifc_to_geojson_2d.py:118-131 | one record per entity of the type, in `by_type` order, even for entities without properties |
| Properties.EntityRecordIds | Tools/bim_ifc_to_geojson_2d.py:121 | every record has IFC_ID and IFC_Type, equal to the GlobalId and class unless a property of that name overwrote them |
| Properties.EntityRecordValue | Tools/bim_ifc_to_geojson_2d.py:129 | a property's entry is the value of the last assignment to its name |
| Properties.ApplyPropertySet | Tools/bim_ifc_to_geojson_2d.py:126-129 | the innermost loop performs one property set's assignments in order |
| Properties.EntityProperties | Tools/bim_ifc_to_geojson_2d.py:121-129 | the relationship loop builds the entity's record |
| Properties.ExtractIfcProperties | Tools/bim_ifc_to_geojson_2d.py:118-131 | the entity loop returns the record of every entity of the type |
| Build.FindRecordFirst | Tools/bim_ifc_to_geojson_2d.py:137 | the join takes the first record whose IFC_ID matches |
| Build.FindRecordNone | Tools/bim_ifc_to_geojson_2d.py:137 | with no match the join uses `{}` |
| Build.FindRecordMissingId | Tools/bim_ifc_to_geojson_2d.py:137 | a record without IFC_ID before any match raises KeyError |
| Build.FindCentroidMeaning | Tools/bim_ifc_to_geojson_2d.py:138 | the centroid written is that of the first entry for the GlobalId, and None iff there is none |
| Build.EnrichMeaning | Tools/bim_ifc_to_geojson_2d.py:136-141 | after the update a feature holds its old keys, every selected key (from the record or "N/A") and the centroid; unselected keys keep their value |
| Build.EnrichSucceeds | Tools/bim_ifc_to_geojson_2d.py:136-137 | with a GlobalId on the feature and an IFC_ID on every record, the update never raises |
| Build.EnrichIdempotent | Tools/bim_ifc_to_geojson_2d.py:136-141 | updating a second time with the same inputs changes nothing, when "GlobalId" is not selected |
| Build.ReapplyWithGlobalIdSelected | Tools/bim_ifc_to_geojson_2d.py:136-141 | with "GlobalId" selected, a second update can overwrite the key the join reads and lose the centroid |
| Build.BuildGeojson | Tools/bim_ifc_to_geojson_2d.py:133-146 | updates the features in order until the first exception, which escapes; on success the collection holds the very same feature dicts |
| Crs.SplitJoin | BIM_a_GIS_2D.py:100 | `split` gives one piece more than there are arrows, no piece holds an arrow, and joining the pieces gives the text back |
| Crs.SplitWithout | BIM_a_GIS_2D.py:100 | text without the separator is one piece |
| Crs.SplitThenPiece | BIM_a_GIS_2D.py:100 | a separator followed by separator-free text adds that text as the last piece |
| Crs.StripMeaning | BIM_a_GIS_2D.py:100 | `strip` removes the leading and trailing whitespace runs and keeps the middle; stripped text is unchanged |
| Crs.TrimStartMeaning | BIM_a_GIS_2D.py:100 | leading whitespace is removed up to the first other character |
| Crs.TrimEndMeaning | BIM_a_GIS_2D.py:100 | trailing whitespace is removed back to the last other character |
| Crs.ParseCrsMeaning | BIM_a_GIS_2D.py:100 | the unpacking into two names succeeds iff the text holds exactly one arrow, and the names are the stripped text on either side |
| Crs.ParseCrsRoundTrip | BIM_a_GIS_2D.py:93-100 | writing two stripped names around " → " and parsing gives them back |
| Crs.DefaultCrsParses | BIM_a_GIS_2D.py:73-74 | the default text names EPSG:25830 and EPSG:4326 |
| Crs.ConfigureCrs | BIM_a_GIS_2D.py:99-106 | succeeds iff the text parses and pyproj resolves the pair; then that transformer is installed, otherwise the old one stays |
| App.DefaultIdempotent | BIM_a_GIS_2D.py:61-74 | running the defaults again on a rerun changes nothing |
| App.Session.constructor | BIM_a_GIS_2D.py:61-74 | a new session holds none of the keys |
| App.Session.InitDefaults | BIM_a_GIS_2D.py:61-74 | every key is set afterwards; absent keys get their defaults and present keys keep their values |
| App.Session.CacheModels | BIM_a_GIS_2D.py:112-119 | the cache becomes the old cache extended by each upload whose name is not cached yet |
| App.CachedKeepsEntries | BIM_a_GIS_2D.py:112-119 | caching keeps the old entries as they were and in front |
| App.CachedNames | BIM_a_GIS_2D.py:112-119 | the cached names are the old ones and the uploaded ones, and no name is stored twice |
| App.CachedFirstUploadWins | BIM_a_GIS_2D.py:113-119 | a name not cached before is stored with the model of its first upload |
| App.ModelTypesMeaning | BIM_a_GIS_2D.py:127-128 | a model offers the class names of its products and "IfcProduct" |
| App.EntityTypes | BIM_a_GIS_2D.py:125-129 | the offered types are strictly increasing and are exactly the union of the models' types |
| App.Kept | BIM_a_GIS_2D.py:134-138 | the ticked entries are exactly the listed ones whose box is ticked, never more than listed |
| App.Session.ConfirmEntities | BIM_a_GIS_2D.py:140-156 | the choice is stored, the gathered records are stored, and the available keys are strictly increasing and are exactly the keys of those records |
| App.StampRecords | BIM_a_GIS_2D.py:147-148 | each record gets Source_File set to the file name |
| App.FileRecords | BIM_a_GIS_2D.py:145-149 | one file's records: the stamped records of each chosen type, in order |
| App.GatherProps | BIM_a_GIS_2D.py:144-149 | the records of every cached file, file by file |
| App.SortedKeys | BIM_a_GIS_2D.py:151-155 | the keys of all records, each once, in increasing order |
| App.PropertiesHaveIds | Tools/bim_ifc_to_geojson_2d.py:121 | every record of `extract_ifc_properties` holds IFC_ID and IFC_Type |
| App.FilePropsStamped | BIM_a_GIS_2D.py:145-149 | each record a file contributes holds IFC_ID, IFC_Type and that file's name |
| App.AllPropsStamped | BIM_a_GIS_2D.py:144-149 | every gathered record names a cached file as its source and has the IFC_ID that the join reads |
| App.StampFeatures | BIM_a_GIS_2D.py:179-180 | each feature gets Source_File set to the file name, and nothing else changes in its properties |
| App.ProcessPair | BIM_a_GIS_2D.py:176-180 | for one file and type: fails without a transformer; otherwise fails with IndexError iff `calculate_centroids` does, and yields new distinct features with the first ring closed, GlobalId and source file as properties, and the centroid list |
| App.ProcessFile | BIM_a_GIS_2D.py:175-182 | one file's features over the chosen types: their count, new and distinct; fails without a transformer |
| App.GatherFeatures | BIM_a_GIS_2D.py:172-182 | the features of every cached file: their count, new and distinct; fails without a transformer |
| App.Session.Process | BIM_a_GIS_2D.py:170-190 | stores the selection; fails without a transformer; on success the count is the run's feature count, and the stored GeoJSON is replaced only when there is at least one feature |
| App.ChooseEntities | BIM_a_GIS_2D.py:134-138 | the entity checkbox loop keeps the ticked types, in list order |
| App.ChooseProps | BIM_a_GIS_2D.py:161-168 | the property checkbox loop keeps the ticked keys, in list order |
| App.UntouchedEntityBoxes | BIM_a_GIS_2D.py:136 | untouched, the boxes select "IfcProduct" and the types chosen before, or every type with "select all" |
| App.UntouchedPropBoxes | BIM_a_GIS_2D.py:165 | untouched, the boxes select the identifying keys and the keys selected before |
| Grouping.GroupIndex | BIM_a_GIS_2D.py:241 | `setdefault` finds the key's group, the first one, or reports that there is none |
| Grouping.AddToShape | BIM_a_GIS_2D.py:241 | one `setdefault(...).append` adds the item to its key's group or opens a new last group; no other group changes |
| Grouping.GroupKeys | BIM_a_GIS_2D.py:238-241 | one group per key, and the keys are exactly those of the features |
| Grouping.GroupMembers | BIM_a_GIS_2D.py:238-241 | each group holds exactly the features with its key, in their order |
| Grouping.GroupOrder | BIM_a_GIS_2D.py:238-241 | the groups come in the order in which their keys first appear |
| Grouping.GroupByFile | BIM_a_GIS_2D.py:238-241 | the loop builds the grouping of the features by source file |
| Grouping.GroupColor | BIM_a_GIS_2D.py:251 | every group's colour is one of the palette's |
| Grouping.GroupColorCycle | BIM_a_GIS_2D.py:245-251 | the colours repeat after ten groups, and any ten consecutive groups get different colours |
| Grouping.LayerColors | BIM_a_GIS_2D.py:250-251 | each group with its colour, in group order |

## Left out

- Floating point: coordinates and numeric property values are reals. Rounding, NaN and infinities are not modelled.
- File access and parsing are parameters:
  - `load_ifc`, the temporary file and `uploaded_file.read()` are the `load: seq<bv8> -> Model` parameter of `App.Session.CacheModels`;
  - a parse failure of `ifcopenshell.open` is not modelled.
- `ifcopenshell.geom.create_shape` is not executed. Each entity carries the mesh it yields, or `None` when it raises.
  - Both calls (in `get_entities_with_geometry` and in `extract_clean_geometry_2D`) are taken to give the same result.
  - The `if shape:` truthiness test is taken as "a shape was produced".
- pyproj is a parameter: `Transformer.from_crs` is the `resolve` parameter of `Crs.ConfigureCrs`, and `transform` is a function inside the `Transformer` value.
- shapely is a parameter: `unary_union`, `is_valid` and `centroid` are the `GeoOps` parameter.
  - Only `Polygon(coords)` raising on fewer than four positions, or on an entry that is not a position, is stated concretely.
  - Area-weighted centroids, union geometry and validity rules are not modelled.
- The Streamlit UI is not modelled:
  - widgets are parameters, e.g. a checkbox is `ticked(label, default)` and a button press is a method call;
  - sidebar messages, spinners, `st.stop()` and reruns are left out;
  - a configuration error is returned as `Err` instead of stopping the script.
- The Gemini CRS suggestion (`BIM_a_GIS_2D.py:87-96`, which calls `gemini_assistant.py`) is an external service; it is not part of this model.
- The CRS text input (`BIM_a_GIS_2D.py:81-85`) is the `text` parameter of `Crs.ConfigureCrs`.
- The map is not modelled: its centring on the first coordinates (`BIM_a_GIS_2D.py:200-208`), the tile layers, and the folium layers, tooltips and styles drawn per group. Only the grouping and the colour choice are.
- The GeoJSON download and `json.dumps` are not modelled.
- `Properties.RelAssignments`: a `RelatingPropertyDefinition` that ifcopenshell returns as a tuple (an IFC4 IfcPropertySetDefinitionSet) is skipped like any other non-property-set definition. In the code `pset.is_a(...)` raises AttributeError on it, and `extract_ifc_properties` and the confirmation step fail.
- `Ifc.ByType`: `by_type(t)` is total and gives `[]` for a class the model's schema lacks. ifcopenshell raises instead, so an upload that mixes IFC2X3 and IFC4 files can make the confirmation and processing steps fail where the model does not.
- Dict key order is not modelled: property records are maps. The model cache and the groups are sequences in insertion order, because the code iterates over them.
- Property values keep only what the model reads: text, numbers, pairs and None. IFC measure types are not distinguished.
- Python allows the same feature dict twice in a list. The model does not: `Centroids.CalculateCentroids`, `Build.BuildGeojson` and `App.StampFeatures` require distinct feature objects. The features the converter returns are new and distinct (`Converter.Converter.ExtractCleanGeometry2D`), so every call in the run meets this requirement.
- `feature["geometry"].get("coordinates", [])` always finds the key: every feature built by the converter has coordinates.
- `Build.EnrichIdempotent`: requires "GlobalId" not to be among the selected keys. With it selected, the update can change the key the join reads (`Build.ReapplyWithGlobalIdSelected`).
- `App.Session.Process`: states the number of features and the size of the stored collection, not each feature's properties. Those are stated by `App.ProcessPair` and `Build.BuildGeojson`.
- `App.ProcessFile`: states the count and freshness of the features, not their contents. The contents are stated per file and type by `App.ProcessPair`.
- `App.GatherFeatures`: states the count and freshness of the features, not their contents or the centroid list. These are stated per file and type by `App.ProcessPair`.
