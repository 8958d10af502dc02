/** `extract_ifc_properties` (Tools/bim_ifc_to_geojson_2d.py:118-131): one property
    record per entity of a type, built from the single-value properties of the
    property sets related to the entity. */
module Properties {
  import opened Wrappers
  import opened Values
  import opened Ifc

  /** The dict an entity's record starts from: its GlobalId and its class name. */
  function BaseRecord(e: Entity): Record
  {
    map["IFC_ID" := Text(e.globalId), "IFC_Type" := Text(e.typeTag)]
  }

  /** What `val.wrappedValue if val else "N/A"` stores. */
  function NominalOrNotAvailable(v: Option<Value>): Value
  {
    if v.Some? then v.value else NotAvailable
  }

  /** The assignments `obj[prop.Name] = ...` that one property set performs, in order:
      one per IfcPropertySingleValue, none for other kinds of property. */
  function PropAssignments(props: seq<Property>): seq<(string, Value)>
  {
    if |props| == 0 then []
    else
      PropAssignments(props[..|props| - 1]) +
      match props[|props| - 1]
      case SingleValue(name, v) => [(name, NominalOrNotAvailable(v))]
      case OtherProperty(_) => []
  }

  /** The assignments one IfcRelDefinesByProperties contributes to the entity with
      instance id `id`: those of its property set when it relates the entity. */
  function RelAssignments(rel: Relation, id: nat): seq<(string, Value)>
  {
    if |rel.relatedObjects| > 0 && id in rel.relatedObjects && rel.relatingPropertyDefinition.PropertySet?
    then PropAssignments(rel.relatingPropertyDefinition.hasProperties)
    else []
  }

  /** All the assignments made for one entity, relationship by relationship. */
  function Assignments(rels: seq<Relation>, id: nat): seq<(string, Value)>
  {
    if |rels| == 0 then []
    else Assignments(rels[..|rels| - 1], id) + RelAssignments(rels[|rels| - 1], id)
  }

  /** A dict after the assignments, performed in order. */
  function Assign(r: Record, asg: seq<(string, Value)>): Record
  {
    if |asg| == 0 then r
    else Assign(r, asg[..|asg| - 1])[asg[|asg| - 1].0 := asg[|asg| - 1].1]
  }

  /** The record built for entity `e`. */
  function EntityRecord(m: Model, e: Entity): Record
  {
    Assign(BaseRecord(e), Assignments(m.relations, e.instanceId))
  }

  /** The list `extract_ifc_properties(m, t)` returns. */
  function Properties(m: Model, t: string): seq<Record>
  {
    var entities := ByType(m.entities, t);
    seq(|entities|, k requires 0 <= k < |entities| => EntityRecord(m, entities[k]))
  }

  // ---------------------------------------------------------------------------
  // Assignments in order
  // ---------------------------------------------------------------------------

  /** Performing two runs of assignments one after the other. */
  lemma {:induction false} AssignAppend(r: Record, a: seq<(string, Value)>, b: seq<(string, Value)>)
    ensures Assign(r, a + b) == Assign(Assign(r, a), b)
  {
    if |b| > 0 {
      var init := b[..|b| - 1];
      AssignAppend(r, a, init);
      assert (a + b)[..|a + b| - 1] == a + init;
      assert (a + b)[|a + b| - 1] == b[|b| - 1];
    } else {
      assert a + b == a;
    }
  }

  /** The names the assignments write to. */
  function Names(asg: seq<(string, Value)>): set<string>
  {
    set x | x in asg :: x.0
  }

  /** The keys after the assignments: the original ones and every name assigned. */
  lemma {:induction false} AssignKeys(r: Record, asg: seq<(string, Value)>)
    ensures Assign(r, asg).Keys == r.Keys + Names(asg)
  {
    if |asg| > 0 {
      var init := asg[..|asg| - 1];
      AssignKeys(r, init);
      assert asg == init + [asg[|asg| - 1]];
      assert Names(asg) == Names(init) + {asg[|asg| - 1].0};
    }
  }

  /** A later assignment to the same name overwrites an earlier one: the value kept is
      that of the last assignment to the name. */
  lemma {:induction false} AssignLastWins(r: Record, asg: seq<(string, Value)>, i: nat)
    requires i < |asg|
    requires forall j :: i < j < |asg| ==> asg[j].0 != asg[i].0
    ensures asg[i].0 in Assign(r, asg) && Assign(r, asg)[asg[i].0] == asg[i].1
  {
    if i < |asg| - 1 {
      var init := asg[..|asg| - 1];
      AssignLastWins(r, init, i);
    }
  }

  /** A name nothing assigns keeps its original entry, or its absence. */
  lemma {:induction false} AssignUntouched(r: Record, asg: seq<(string, Value)>, k: string)
    requires forall j :: 0 <= j < |asg| ==> asg[j].0 != k
    ensures k in Assign(r, asg) <==> k in r
    ensures k in r ==> Assign(r, asg)[k] == r[k]
  {
    if |asg| > 0 {
      AssignUntouched(r, asg[..|asg| - 1], k);
    }
  }

  // ---------------------------------------------------------------------------
  // Which assignments are made
  // ---------------------------------------------------------------------------

  /** Property `p` of a set makes assignment `x`: it is a single value of that name,
      and an empty nominal value is written as "N/A". */
  predicate MakesAssignment(p: Property, x: (string, Value))
  {
    p.SingleValue? && p.name == x.0 &&
    x.1 == (if p.nominalValue.Some? then p.nominalValue.value else Text("N/A"))
  }

  /** Relationship `rel` relates the entity with instance id `id` to a property set. */
  predicate RelatesSet(rel: Relation, id: nat)
  {
    id in rel.relatedObjects && rel.relatingPropertyDefinition.PropertySet?
  }

  /** A property set assigns exactly its single-value properties. */
  lemma {:induction false} PropAssignmentsMeaning(props: seq<Property>)
    ensures forall x :: x in PropAssignments(props) <==>
      exists p :: 0 <= p < |props| && MakesAssignment(props[p], x)
  {
    if |props| > 0 {
      var init := props[..|props| - 1];
      PropAssignmentsMeaning(init);
      forall x: (string, Value) | x in PropAssignments(props)
        ensures exists p :: 0 <= p < |props| && MakesAssignment(props[p], x)
      {
        if x in PropAssignments(init) {
          var p :| 0 <= p < |init| && MakesAssignment(init[p], x);
          assert props[p] == init[p];
        } else {
          assert MakesAssignment(props[|props| - 1], x);
        }
      }
      forall x: (string, Value) | exists p :: 0 <= p < |props| && MakesAssignment(props[p], x)
        ensures x in PropAssignments(props)
      {
        var p :| 0 <= p < |props| && MakesAssignment(props[p], x);
        if p < |init| {
          assert init[p] == props[p];
        }
      }
    }
  }

  /** The entity's assignments are those of the property sets related to it. */
  lemma AssignmentsMeaning(rels: seq<Relation>, id: nat)
    ensures forall x :: x in Assignments(rels, id) <==> exists q :: RelationAssigns(rels, q, id, x)
  {
    AssignmentsSound(rels, id);
    AssignmentsComplete(rels, id);
  }

  lemma {:induction false} AssignmentsSound(rels: seq<Relation>, id: nat)
    ensures forall x :: x in Assignments(rels, id) ==> exists q :: RelationAssigns(rels, q, id, x)
  {
    if |rels| > 0 {
      var init := rels[..|rels| - 1];
      var last := rels[|rels| - 1];
      AssignmentsSound(init, id);
      RelAssignmentsMeaning(last, id);
      assert Assignments(rels, id) == Assignments(init, id) + RelAssignments(last, id);
      forall x: (string, Value) | x in Assignments(rels, id)
        ensures exists q :: RelationAssigns(rels, q, id, x)
      {
        if x in Assignments(init, id) {
          var q :| RelationAssigns(init, q, id, x);
          assert RelationAssigns(rels, q, id, x);
        } else {
          assert RelationAssigns(rels, |rels| - 1, id, x);
        }
      }
    }
  }

  lemma {:induction false} AssignmentsComplete(rels: seq<Relation>, id: nat)
    ensures forall q, x :: RelationAssigns(rels, q, id, x) ==> x in Assignments(rels, id)
  {
    if |rels| > 0 {
      var init := rels[..|rels| - 1];
      var last := rels[|rels| - 1];
      AssignmentsComplete(init, id);
      RelAssignmentsMeaning(last, id);
      assert Assignments(rels, id) == Assignments(init, id) + RelAssignments(last, id);
      forall q, x: (string, Value) | RelationAssigns(rels, q, id, x)
        ensures x in Assignments(rels, id)
      {
        if q < |init| {
          assert RelationAssigns(init, q, id, x);
        }
      }
    }
  }

  lemma RelAssignmentsMeaning(rel: Relation, id: nat)
    ensures forall x :: x in RelAssignments(rel, id) <==>
      RelatesSet(rel, id) && x in PropAssignments(rel.relatingPropertyDefinition.hasProperties)
  {
  }

  /** Relationship `q` of `rels` relates the entity to a property set that makes
      assignment `x`. */
  predicate RelationAssigns(rels: seq<Relation>, q: int, id: nat, x: (string, Value))
  {
    0 <= q < |rels| && RelatesSet(rels[q], id) &&
    x in PropAssignments(rels[q].relatingPropertyDefinition.hasProperties)
  }

  // ---------------------------------------------------------------------------
  // The records
  // ---------------------------------------------------------------------------

  /** One record per entity of the type, in `by_type` order, each with an IFC_ID and
      an IFC_Type entry, and with no other keys than those and the names of the
      single-value properties assigned to its entity. */
  lemma PropertiesShape(m: Model, t: string)
    ensures |Properties(m, t)| == |ByType(m.entities, t)|
    ensures forall k :: 0 <= k < |Properties(m, t)| ==>
      var e := ByType(m.entities, t)[k];
      && "IFC_ID" in Properties(m, t)[k] && "IFC_Type" in Properties(m, t)[k]
      && forall key :: key in Properties(m, t)[k] ==>
           key == "IFC_ID" || key == "IFC_Type" ||
           exists x :: x in Assignments(m.relations, e.instanceId) && x.0 == key
  {
    forall k | 0 <= k < |Properties(m, t)|
      ensures var e := ByType(m.entities, t)[k];
        && "IFC_ID" in Properties(m, t)[k] && "IFC_Type" in Properties(m, t)[k]
        && forall key :: key in Properties(m, t)[k] ==>
             key == "IFC_ID" || key == "IFC_Type" ||
             exists x :: x in Assignments(m.relations, e.instanceId) && x.0 == key
    {
      var e := ByType(m.entities, t)[k];
      var asg := Assignments(m.relations, e.instanceId);
      AssignKeys(BaseRecord(e), asg);
    }
  }

  /** IFC_ID and IFC_Type hold the entity's GlobalId and class unless a related
      single-value property has that very name and overwrites them. */
  lemma EntityRecordIds(m: Model, e: Entity)
    ensures "IFC_ID" in EntityRecord(m, e) && "IFC_Type" in EntityRecord(m, e)
    ensures (forall x :: x in Assignments(m.relations, e.instanceId) ==> x.0 != "IFC_ID") ==>
      EntityRecord(m, e)["IFC_ID"] == Text(e.globalId)
    ensures (forall x :: x in Assignments(m.relations, e.instanceId) ==> x.0 != "IFC_Type") ==>
      EntityRecord(m, e)["IFC_Type"] == Text(e.typeTag)
  {
    var asg := Assignments(m.relations, e.instanceId);
    AssignKeys(BaseRecord(e), asg);
    if forall x :: x in asg ==> x.0 != "IFC_ID" {
      AssignUntouched(BaseRecord(e), asg, "IFC_ID");
    }
    if forall x :: x in asg ==> x.0 != "IFC_Type" {
      AssignUntouched(BaseRecord(e), asg, "IFC_Type");
    }
  }

  /** A property's entry is the value of the last assignment to its name. */
  lemma EntityRecordValue(m: Model, e: Entity, i: nat)
    requires i < |Assignments(m.relations, e.instanceId)|
    requires var asg := Assignments(m.relations, e.instanceId);
      forall j :: i < j < |asg| ==> asg[j].0 != asg[i].0
    ensures var x := Assignments(m.relations, e.instanceId)[i];
      x.0 in EntityRecord(m, e) && EntityRecord(m, e)[x.0] == x.1
  {
    AssignLastWins(BaseRecord(e), Assignments(m.relations, e.instanceId), i);
  }

  /** The innermost loop (lines 126-129): one property set's single values written
      into `obj`. */
  method ApplyPropertySet(obj: Record, ps: seq<Property>) returns (r: Record)
    ensures r == Assign(obj, PropAssignments(ps))
  {
    r := obj;
    for q := 0 to |ps|
      invariant r == Assign(obj, PropAssignments(ps[..q]))
    {
      PropAssignmentsStep(ps, q);
      if ps[q].SingleValue? {
        var val := ps[q].nominalValue;
        var x := (ps[q].name, if val.Some? then val.value else NotAvailable);
        AssignSnoc(obj, PropAssignments(ps[..q]), x);
        r := r[x.0 := x.1];
      } else {
        assert PropAssignments(ps[..q]) + [] == PropAssignments(ps[..q]);
      }
    }
    assert ps[..|ps|] == ps;
  }

  lemma PropAssignmentsStep(ps: seq<Property>, q: nat)
    requires q < |ps|
    ensures PropAssignments(ps[..q + 1]) == PropAssignments(ps[..q]) +
      if ps[q].SingleValue? then [(ps[q].name, NominalOrNotAvailable(ps[q].nominalValue))] else []
  {
    assert ps[..q + 1][..q] == ps[..q];
  }

  lemma AssignSnoc(r: Record, a: seq<(string, Value)>, x: (string, Value))
    ensures Assign(r, a + [x]) == Assign(r, a)[x.0 := x.1]
  {
    assert (a + [x])[..|a|] == a;
  }

  /** The body of the entity loop (lines 121-129): the record of one entity. */
  method EntityProperties(m: Model, entity: Entity) returns (obj: Record)
    ensures obj == EntityRecord(m, entity)
  {
    var id := entity.instanceId;
    ghost var base := BaseRecord(entity);
    obj := map["IFC_ID" := Text(entity.globalId), "IFC_Type" := Text(entity.typeTag)];
    for r := 0 to |m.relations|
      invariant obj == Assign(base, Assignments(m.relations[..r], id))
    {
      var rel := m.relations[r];
      ghost var before := Assignments(m.relations[..r], id);
      assert m.relations[..r + 1][..r] == m.relations[..r];
      AssignAppend(base, before, RelAssignments(rel, id));
      if |rel.relatedObjects| > 0 && id in rel.relatedObjects {
        var pset := rel.relatingPropertyDefinition;
        if pset.PropertySet? {
          obj := ApplyPropertySet(obj, pset.hasProperties);
        }
      } else {
        assert before + [] == before;
      }
    }
    assert m.relations[..|m.relations|] == m.relations;
  }

  /** `extract_ifc_properties` (lines 118-131). */
  method ExtractIfcProperties(m: Model, entityType: string) returns (props: seq<Record>)
    ensures props == Properties(m, entityType)
  {
    var entities := ByType(m.entities, entityType);
    props := [];
    for n := 0 to |entities|
      invariant |props| == n
      invariant forall k :: 0 <= k < n ==> props[k] == EntityRecord(m, entities[k])
    {
      var obj := EntityProperties(m, entities[n]);
      props := props + [obj];
    }
  }
}
