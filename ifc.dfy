/** The slice of an IFC model that the converter reads through ifcopenshell: products
    with their type tags and GlobalIds, the triangulated mesh that shape generation
    would produce, and the IfcRelDefinesByProperties relationships. Parsing the file
    and generating the mesh are foreign; an entity simply carries the mesh, or `None`
    when `create_shape` raises for it. */
module Ifc {
  import opened Wrappers
  import opened Values

  /** A triangulated mesh in world coordinates: `faces` holds vertex indices three per
      triangle, `verts` holds coordinates three per vertex (x, y, z). */
  datatype Mesh = Mesh(faces: seq<int>, verts: seq<real>)

  /** One IFC entity instance. `supertypes` are the schema classes its class inherits
      from, which is what `is_a(t)` and `by_type(t)` consult. */
  datatype Entity = Entity(
    instanceId: nat,
    globalId: string,
    typeTag: string,
    supertypes: set<string>,
    shape: Option<Mesh>)

  /** `entity.is_a(t)`: the entity's own class or one of its superclasses. */
  predicate IsA(e: Entity, t: string)
  {
    e.typeTag == t || t in e.supertypes
  }

  /** An entry of `HasProperties`: only IfcPropertySingleValue carries a NominalValue
      (`None` when the value wrapper is absent). */
  datatype Property =
    | SingleValue(name: string, nominalValue: Option<Value>)
    | OtherProperty(name: string)

  /** What an IfcRelDefinesByProperties points at: an IfcPropertySet, or another kind
      of property definition (an IfcElementQuantity, for one). */
  datatype PropertyDefinition = PropertySet(hasProperties: seq<Property>) | OtherDefinition

  /** IfcRelDefinesByProperties: the instance ids of its RelatedObjects and its
      RelatingPropertyDefinition. */
  datatype Relation = Relation(relatedObjects: seq<nat>, relatingPropertyDefinition: PropertyDefinition)

  /** A loaded model: its entities in file order and its property relationships. */
  datatype Model = Model(entities: seq<Entity>, relations: seq<Relation>)

  /** `model.by_type(t)`: the entities that are instances of `t` or of a subtype,
      in file order. */
  function ByType(entities: seq<Entity>, t: string): (r: seq<Entity>)
    ensures |r| <= |entities|
    ensures forall e :: e in r <==> e in entities && IsA(e, t)
  {
    if |entities| == 0 then []
    else
      var rest := ByType(entities[1..], t);
      assert entities == [entities[0]] + entities[1..];
      if IsA(entities[0], t) then [entities[0]] + rest else rest
  }

  /** `get_entities_with_geometry`: the entities of the type whose shape generation
      succeeds. Asking for "IfcProduct" and asking `by_type` for it are the same. */
  function EntitiesWithGeometry(m: Model, t: string): (r: seq<Entity>)
    ensures |r| <= |m.entities|
    ensures forall e :: e in r <==> e in m.entities && IsA(e, t) && e.shape.Some?
  {
    WithShape(ByType(m.entities, t))
  }

  function WithShape(entities: seq<Entity>): (r: seq<Entity>)
    ensures |r| <= |entities|
    ensures forall e :: e in r <==> e in entities && e.shape.Some?
  {
    if |entities| == 0 then []
    else
      var rest := WithShape(entities[1..]);
      assert entities == [entities[0]] + entities[1..];
      if entities[0].shape.Some? then [entities[0]] + rest else rest
  }

  /** `by_type` keeps the order of the model: filtering a concatenation filters each part. */
  lemma {:induction false} ByTypeAppend(a: seq<Entity>, b: seq<Entity>, t: string)
    ensures ByType(a + b, t) == ByType(a, t) + ByType(b, t)
  {
    if |a| == 0 {
      assert a + b == b;
    } else {
      assert (a + b)[1..] == a[1..] + b;
      ByTypeAppend(a[1..], b, t);
    }
  }

  /** One entity is kept, once, exactly when it is an instance of the type. */
  lemma ByTypeOfOne(e: Entity, t: string)
    ensures ByType([e], t) == if IsA(e, t) then [e] else []
  {
    assert [e][1..] == [];
  }

  /** The shape filter keeps the order of its input: filtering a concatenation filters
      each part. */
  lemma {:induction false} WithShapeAppend(a: seq<Entity>, b: seq<Entity>)
    ensures WithShape(a + b) == WithShape(a) + WithShape(b)
  {
    if |a| == 0 {
      assert a + b == b;
    } else {
      assert (a + b)[1..] == a[1..] + b;
      WithShapeAppend(a[1..], b);
    }
  }

  /** One entity is kept, once, exactly when its shape can be generated. */
  lemma WithShapeOfOne(e: Entity)
    ensures WithShape([e]) == if e.shape.Some? then [e] else []
  {
    assert [e][1..] == [];
  }
}
