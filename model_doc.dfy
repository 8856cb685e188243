/**
 * The schema of one entity model (lib/grape-swagger/documentation/model_doc.rb):
 * each documented property reshaped into a Swagger property, the list of
 * required property names, and the model's name and id.
 */
module ModelDoc {
  import opened Support
  import opened Records
  import opened BaseDoc

  /** A rendered property: an array property carries its element schema under
      `items`, any other property carries its schema inline.  `others` holds
      the documentation keys passed through unchanged. */
  datatype Property =
    | ArrayProperty(items: Schema, description: Option<string>, enumValues: Option<Values>, others: map<string, Value>)
    | ScalarProperty(schema: Schema, description: Option<string>, enumValues: Option<Values>, others: map<string, Value>)

  /** The keys `transform_property` removes (`except(:required)`) or consumes
      (`delete`) before building the property. */
  const ConsumedKeys: set<string> := {"required", "type", "is_array", "desc", "values"}

  /** The symbol keys the property itself sets, which overwrite a passed-through
      key of the same name.  The inline schema's keys are the strings `'type'`
      and `'$ref'`, which never equal a symbol key. */
  function WrittenKeys(isArray: bool, description: Option<string>, enumValues: Option<Values>): set<string> {
    (if isArray then {"items"} else {})
      + (if description.Some? then {"description"} else {})
      + (if enumValues.Some? then {"enum"} else {})
  }

  /** `translate(key)` followed by `presence`: a missing or blank translation
      (empty or only whitespace) is nil. */
  function TranslateKey(table: map<string, string>, key: string): (r: Option<string>)
    ensures r.Some? <==> key in table && !Blank(table[key])
    ensures r.Some? ==> r.value == table[key]
  {
    if key in table && !Blank(table[key]) then Some(table[key]) else None
  }

  /** Every property documented without a type has an exposure to look the
      type up in (`model.exposures[name]` is dereferenced otherwise). */
  predicate Transformable(model: Entity, name: string, info: PropInfo) {
    info.propType.Some? || name in model.exposures.entries
  }

  /** The property's type: the explicit `:type`, else the entity name of the
      exposure's `:using` entity, else nil. */
  function PropertyType(model: Entity, name: string, info: PropInfo): (r: Option<TypeRef>)
    requires Transformable(model, name, info)
    ensures info.propType.Some? ==> r == info.propType
    ensures info.propType.None? ==> (r.Some? <==> model.exposures.entries[name].using.Some?)
    ensures info.propType.None? && r.Some? ==>
      r.value == TypeName(ParseEntityName(model.exposures.entries[name].using.value))
  {
    if info.propType.Some? then info.propType
    else
      var using := model.exposures.entries[name].using;
      if using.Some? then Some(TypeName(ParseEntityName(using.value))) else None
  }

  /** `:values` renamed to `:enum`; a callable is invoked, a range is kept as it is. */
  function EnumOf(values: Option<Values>): (r: Option<Values>)
    ensures r.Some? <==> values.Some?
    ensures r.Some? ==> !r.value.Computed?
    ensures r.Some? && !values.value.Computed? ==> r == values
  {
    match values
    case None => None
    case Some(Computed(result)) => Some(Listed(result))
    case Some(v) => Some(v)
  }

  /** `transform_property`. */
  function TransformProperty(model: Entity, name: string, info: PropInfo, table: map<string, string>): (r: Property)
    requires Transformable(model, name, info)
    ensures r.ArrayProperty? <==> info.isArray
    ensures r.ArrayProperty? ==> r.items == TypeToRef(PropertyType(model, name, info))
    ensures r.ScalarProperty? ==> r.schema == TypeToRef(PropertyType(model, name, info))
    ensures info.desc.Some? ==> r.description == info.desc
    ensures info.desc.None? ==> r.description == TranslateKey(table, name)
    ensures r.enumValues == EnumOf(info.values)
    ensures "required" !in r.others
    ensures forall k :: k in r.others <==>
      k in info.others && k !in ConsumedKeys && k !in WrittenKeys(info.isArray, r.description, r.enumValues)
    ensures forall k :: k in r.others ==> r.others[k] == info.others[k]
  {
    var schema := TypeToRef(PropertyType(model, name, info));
    var description := if info.desc.Some? then info.desc else TranslateKey(table, name);
    var enumValues := EnumOf(info.values);
    var others := info.others - ConsumedKeys - WrittenKeys(info.isArray, description, enumValues);
    if info.isArray then ArrayProperty(schema, description, enumValues, others)
    else ScalarProperty(schema, description, enumValues, others)
  }

  /** A documentation key the generator does not interpret, such as `:default`,
      reaches the property unchanged, whatever the other keys say. */
  lemma TransformPassesThrough(model: Entity, name: string, info: PropInfo, table: map<string, string>, k: string)
    requires Transformable(model, name, info)
    requires k in info.others && k !in ConsumedKeys && k !in {"items", "description", "enum"}
    ensures var r := TransformProperty(model, name, info, table);
      k in r.others && r.others[k] == info.others[k]
  {
  }

  /** An explicitly typed property is rendered from its own type alone,
      whatever the model's exposures say. */
  lemma TransformExplicitType(m1: Entity, m2: Entity, name: string, info: PropInfo, table: map<string, string>)
    requires info.propType.Some?
    ensures TransformProperty(m1, name, info, table) == TransformProperty(m2, name, info, table)
  {
  }

  /** Every documented property can be transformed. */
  ghost predicate Renderable(model: Entity) {
    model.documentation.Valid() &&
    forall k :: k in model.documentation.entries ==> Transformable(model, k, model.documentation.entries[k])
  }

  // ---------------------------------------------------------------------------
  // properties

  /** The hash `properties` has built after the first `n` documented properties. */
  function PropertiesUpTo(model: Entity, table: map<string, string>, n: nat): (r: Dict<string, Property>)
    requires Renderable(model) && n <= |model.documentation.keys|
    ensures r.Valid()
  {
    if n == 0 then EmptyDict()
    else
      var doc := model.documentation;
      var k := doc.keys[n - 1];
      assert k in doc.entries;
      PropertiesUpTo(model, table, n - 1).Put(k, TransformProperty(model, k, doc.entries[k], table))
  }

  /** `properties`: reduces the documentation into a hash of transformed properties. */
  method Properties(model: Entity, table: map<string, string>) returns (props: Dict<string, Property>)
    requires Renderable(model)
    ensures props == PropertiesUpTo(model, table, |model.documentation.keys|)
  {
    var doc := model.documentation;
    props := EmptyDict();
    for i := 0 to |doc.keys|
      invariant props == PropertiesUpTo(model, table, i)
    {
      var name := doc.keys[i];
      assert name in doc.entries;
      props := props.Put(name, TransformProperty(model, name, doc.entries[name], table));
    }
  }

  /** After `n` steps a name has an entry exactly when it is among the first
      `n` documented, and the entry is that property transformed. */
  lemma {:induction false} PropertiesUpToEntry(model: Entity, table: map<string, string>, n: nat, k: string)
    requires Renderable(model) && n <= |model.documentation.keys|
    ensures k in PropertiesUpTo(model, table, n).entries <==> k in model.documentation.keys[..n]
    ensures k in PropertiesUpTo(model, table, n).entries ==>
      k in model.documentation.entries &&
      PropertiesUpTo(model, table, n).entries[k] == TransformProperty(model, k, model.documentation.entries[k], table)
    decreases n
  {
    var doc := model.documentation;
    if n > 0 {
      var last := doc.keys[n - 1];
      assert last in doc.entries;
      var prev := PropertiesUpTo(model, table, n - 1);
      assert PropertiesUpTo(model, table, n) == prev.Put(last, TransformProperty(model, last, doc.entries[last], table));
      assert doc.keys[..n] == doc.keys[..n - 1] + [last];
      if k != last {
        PropertiesUpToEntry(model, table, n - 1, k);
      }
    }
  }

  /** With distinct names, the hash lists them in declaration order. */
  lemma {:induction false} PropertiesUpToKeys(model: Entity, table: map<string, string>, n: nat)
    requires Renderable(model) && n <= |model.documentation.keys| && Distinct(model.documentation.keys)
    ensures PropertiesUpTo(model, table, n).keys == model.documentation.keys[..n]
    decreases n
  {
    if n == 0 {
      assert model.documentation.keys[..0] == [];
      assert PropertiesUpTo(model, table, 0) == EmptyDict();
    } else {
      PropertiesUpToKeys(model, table, n - 1);
      PropertiesKeysStep(model, table, n);
    }
  }

  lemma PropertiesKeysStep(model: Entity, table: map<string, string>, n: nat)
    requires Renderable(model) && 0 < n <= |model.documentation.keys| && Distinct(model.documentation.keys)
    requires PropertiesUpTo(model, table, n - 1).keys == model.documentation.keys[..n - 1]
    ensures PropertiesUpTo(model, table, n).keys == model.documentation.keys[..n]
  {
    var doc := model.documentation;
    var k := doc.keys[n - 1];
    assert k in doc.entries;
    var prev := PropertiesUpTo(model, table, n - 1);
    var v := TransformProperty(model, k, doc.entries[k], table);
    PropertiesUpToEntry(model, table, n - 1, k);
    PutDistinctKey(prev, v, doc.keys, n);
    assert PropertiesUpTo(model, table, n) == prev.Put(k, v);
  }

  /** The full properties hash: exactly the documented names, in declaration
      order, each holding its property transformed. */
  lemma PropertiesFacts(model: Entity, table: map<string, string>, k: string)
    requires Renderable(model) && Distinct(model.documentation.keys)
    ensures var props := PropertiesUpTo(model, table, |model.documentation.keys|);
      && props.keys == model.documentation.keys
      && (k in props.entries <==> k in model.documentation.entries)
      && (k in props.entries ==> props.entries[k] == TransformProperty(model, k, model.documentation.entries[k], table))
  {
    var doc := model.documentation;
    PropertiesUpToEntry(model, table, |doc.keys|, k);
    PropertiesUpToKeys(model, table, |doc.keys|);
    assert doc.keys[..|doc.keys|] == doc.keys;
  }

  // ---------------------------------------------------------------------------
  // required_properties, id, name

  /** The names, among the first `n` documented, whose `:required` is truthy, in order. */
  function RequiredUpTo(doc: Dict<string, PropInfo>, n: nat): (r: seq<string>)
    requires doc.Valid() && n <= |doc.keys|
    ensures |r| <= n
    ensures forall x :: x in r <==> exists i :: 0 <= i < n && doc.keys[i] == x && doc.entries[x].required
  {
    if n == 0 then []
    else
      var k := doc.keys[n - 1];
      assert k in doc.entries;
      RequiredUpTo(doc, n - 1) + (if doc.entries[k].required then [k] else [])
  }

  /** `required_properties`. */
  function RequiredProperties(model: Entity): (r: seq<string>)
    requires model.documentation.Valid()
    ensures forall x :: x in r <==> x in model.documentation.entries && model.documentation.entries[x].required
  {
    var doc := model.documentation;
    var r := RequiredUpTo(doc, |doc.keys|);
    assert forall x :: x in doc.entries ==> exists i :: 0 <= i < |doc.keys| && doc.keys[i] == x by {
      forall x | x in doc.entries ensures exists i :: 0 <= i < |doc.keys| && doc.keys[i] == x {
        assert x in doc.keys;
      }
    }
    r
  }

  /** `required_properties` lists the required names in declaration order: it
      is the documentation's names filtered by their flag. */
  lemma {:induction false} RequiredInOrder(doc: Dict<string, PropInfo>, n: nat)
    requires doc.Valid() && n <= |doc.keys|
    ensures RequiredUpTo(doc, n) == Filter(doc.keys[..n], k => k in doc.entries && doc.entries[k].required)
    decreases n
  {
    if n == 0 {
      assert doc.keys[..0] == [];
      assert RequiredUpTo(doc, 0) == [];
    } else {
      var p := k => k in doc.entries && doc.entries[k].required;
      var k := doc.keys[n - 1];
      assert k in doc.entries;
      RequiredInOrder(doc, n - 1);
      var prefix := doc.keys[..n];
      assert prefix[..|prefix| - 1] == doc.keys[..n - 1] && prefix[|prefix| - 1] == k;
      assert Filter(prefix, p) == Filter(doc.keys[..n - 1], p) + (if p(k) then [k] else []);
      assert RequiredUpTo(doc, n) == RequiredUpTo(doc, n - 1) + (if doc.entries[k].required then [k] else []);
    }
  }

  /** `name`: the model's entity name. */
  function Name(model: Entity): (r: string)
    ensures model.ref.entityName.Some? ==> r == model.ref.entityName.value
    ensures model.ref.entityName.None? ==> r == StrippedModelName(model.ref.name)
  {
    ParseEntityName(model.ref)
  }

  /** `id`: the model's `@root` when set, else its name. */
  function Id(model: Entity): (r: string)
    ensures model.root.Some? ==> r == model.root.value
    ensures model.root.None? ==> r == Name(model)
  {
    model.root.GetOr(Name(model))
  }
}
