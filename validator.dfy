/** `JSONSchemaValidator` (src/validator.py:6-47): a recursive check of a
    parsed value against a schema that is itself a parsed value.  Only the
    keys `type`, `properties`, `items` and `required` are consulted; the
    early returns of the loops make each loop a conjunction. */
module Validator {
  import opened Exceptions
  import opened Values

  const TypeKey: JString := [116, 121, 112, 101]  // "type"
  const PropertiesKey: JString := [112, 114, 111, 112, 101, 114, 116, 105, 101, 115]  // "properties"
  const ItemsKey: JString := [105, 116, 101, 109, 115]  // "items"
  const RequiredKey: JString := [114, 101, 113, 117, 105, 114, 101, 100]  // "required"
  const ObjectName: JString := [111, 98, 106, 101, 99, 116]  // "object"
  const ArrayName: JString := [97, 114, 114, 97, 121]  // "array"

  /** `schema[key]` when `key in schema`, on a dict. */
  function Field(schema: Value, key: JString): (r: Option<Value>)
    requires schema.Obj?
    ensures r.Some? ==> r.value < schema
    ensures r.Some? ==> exists i :: 0 <= i < |schema.members| && schema.members[i] == (key, r.value)
    ensures r.None? <==> forall i :: 0 <= i < |schema.members| ==> schema.members[i].0 != key
  {
    var r := Lookup(schema.members, key);
    if r.Some? then
      var i :| 0 <= i < |schema.members| && schema.members[i] == (key, r.value);
      assert schema.members[i] in schema.members;
      r
    else r
  }

  predicate HasType(schema: Value, name: JString)
    requires schema.Obj?
  {
    Field(schema, TypeKey) == Some(Str(name))
  }

  /** The schemas the validator can consult without a TypeError: dicts, an
      object schema's `properties` a dict of schemas, an array schema's
      `items` a schema. */
  predicate IsSchema(schema: Value)
    decreases schema
  {
    schema.Obj? &&
    (HasType(schema, ObjectName) && Field(schema, PropertiesKey).Some? ==>
       var props := Field(schema, PropertiesKey).value;
       props.Obj? && forall i :: 0 <= i < |props.members| ==> IsSchema(props.members[i].1)) &&
    (HasType(schema, ArrayName) && Field(schema, ItemsKey).Some? ==> IsSchema(Field(schema, ItemsKey).value))
  }

  /** Python truthiness of a parsed value; a fractional number is true when a
      digit of its mantissa is not zero. */
  predicate Truthy(v: Value)
  {
    match v
    case Null => false
    case Bool(b) => b
    case Int(i) => i != 0
    case Frac(lexeme) => NonzeroMantissa(lexeme)
    case Str(s) => s != []
    case Arr(items) => items != []
    case Obj(ms) => ms != []
  }

  predicate NonzeroMantissa(lexeme: string)
  {
    lexeme != [] && lexeme[0] != 'e' && lexeme[0] != 'E' &&
    ('1' <= lexeme[0] <= '9' || NonzeroMantissa(lexeme[1..]))
  }

  /** `'required' in prop_schema and prop_schema['required']`, on a dict. */
  predicate Required(propSchema: Value)
  {
    propSchema.Obj? && Field(propSchema, RequiredKey).Some? && Truthy(Field(propSchema, RequiredKey).value)
  }

  /** `validate_schema`: only `object` and `array` types are checked. */
  predicate Validate(data: Value, schema: Value)
    requires IsSchema(schema)
    decreases schema, 2, 0
  {
    if HasType(schema, ObjectName) then ValidateObject(data, schema)
    else if HasType(schema, ArrayName) then ValidateArray(data, schema)
    else true
  }

  /** `_validate_object` */
  predicate ValidateObject(data: Value, schema: Value)
    requires IsSchema(schema) && HasType(schema, ObjectName)
    decreases schema, 1, 0
  {
    if !data.Obj? then false
    else match Field(schema, PropertiesKey)
      case None => true
      case Some(props) => PropertiesHold(data.members, props, 0)
  }

  /** The loop over `schema['properties'].items()` from entry `i` on. */
  predicate PropertiesHold(data: seq<(JString, Value)>, props: Value, i: nat)
    requires props.Obj? && i <= |props.members|
    requires forall j :: 0 <= j < |props.members| ==> IsSchema(props.members[j].1)
    decreases props, 3, |props.members| - i
  {
    if i == |props.members| then true
    else
      assert props.members[i] in props.members;
      PropertyHolds(data, props.members[i].0, props.members[i].1) && PropertiesHold(data, props, i + 1)
  }

  /** One round of that loop: a present property validates against its
      schema, an absent one must not be required. */
  predicate PropertyHolds(data: seq<(JString, Value)>, prop: JString, propSchema: Value)
    requires IsSchema(propSchema)
    decreases propSchema, 3, 0
  {
    match Lookup(data, prop)
    case Some(x) => Validate(x, propSchema)
    case None => !Required(propSchema)
  }

  /** `_validate_array` */
  predicate ValidateArray(data: Value, schema: Value)
    requires IsSchema(schema) && HasType(schema, ArrayName)
    decreases schema, 1, 0
  {
    if !data.Arr? then false
    else match Field(schema, ItemsKey)
      case None => true
      case Some(itemSchema) => ItemsHold(data.items, itemSchema, 0)
  }

  /** The loop over the array from element `i` on. */
  predicate ItemsHold(items: seq<Value>, itemSchema: Value, i: nat)
    requires IsSchema(itemSchema) && i <= |items|
    decreases itemSchema, 3, |items| - i
  {
    i == |items| || (Validate(items[i], itemSchema) && ItemsHold(items, itemSchema, i + 1))
  }

  // ------------------------------------------------------------- properties

  /** A schema without `type`, or with a type other than `object` and `array`,
      accepts every value. */
  lemma {:induction false} UncheckedTypeAccepts(data: Value, schema: Value)
    requires IsSchema(schema) && !HasType(schema, ObjectName) && !HasType(schema, ArrayName)
    ensures Validate(data, schema)
  {
  }

  /** The property loop is the conjunction of its rounds. */
  lemma {:induction false} PropertiesHoldAll(data: seq<(JString, Value)>, props: Value, i: nat)
    requires props.Obj? && i <= |props.members|
    requires forall j :: 0 <= j < |props.members| ==> IsSchema(props.members[j].1)
    ensures PropertiesHold(data, props, i) <==>
            forall j :: i <= j < |props.members| ==> PropertyHolds(data, props.members[j].0, props.members[j].1)
    decreases |props.members| - i
  {
    if i < |props.members| {
      var round := PropertyHolds(data, props.members[i].0, props.members[i].1);
      assert PropertiesHold(data, props, i) == (round && PropertiesHold(data, props, i + 1));
      PropertiesHoldAll(data, props, i + 1);
    }
  }

  /** An object schema accepts exactly the objects in which every declared
      property that is present validates against its schema and every declared
      property that is absent is not required; without `properties` it accepts
      every object. */
  lemma {:induction false} ObjectSchema(data: Value, schema: Value)
    requires IsSchema(schema) && HasType(schema, ObjectName)
    ensures Validate(data, schema) <==>
            data.Obj? &&
            (Field(schema, PropertiesKey).Some? ==>
               var props := Field(schema, PropertiesKey).value;
               forall j :: 0 <= j < |props.members| ==>
                 match Lookup(data.members, props.members[j].0)
                 case Some(x) => Validate(x, props.members[j].1)
                 case None => !Required(props.members[j].1))
  {
    if data.Obj? && Field(schema, PropertiesKey).Some? {
      PropertiesHoldAll(data.members, Field(schema, PropertiesKey).value, 0);
    }
  }

  /** The element loop is the conjunction of its rounds. */
  lemma {:induction false} ItemsHoldAll(items: seq<Value>, itemSchema: Value, i: nat)
    requires IsSchema(itemSchema) && i <= |items|
    ensures ItemsHold(items, itemSchema, i) <==> forall j :: i <= j < |items| ==> Validate(items[j], itemSchema)
    decreases |items| - i
  {
    if i < |items| {
      ItemsHoldAll(items, itemSchema, i + 1);
    }
  }

  /** An array schema accepts exactly the arrays whose every element validates
      against `items`; without `items` it accepts every array. */
  lemma {:induction false} ArraySchema(data: Value, schema: Value)
    requires IsSchema(schema) && HasType(schema, ArrayName)
    ensures Validate(data, schema) <==>
            data.Arr? &&
            (Field(schema, ItemsKey).Some? ==> forall j :: 0 <= j < |data.items| ==> Validate(data.items[j], Field(schema, ItemsKey).value))
  {
    if data.Arr? && Field(schema, ItemsKey).Some? {
      ItemsHoldAll(data.items, Field(schema, ItemsKey).value, 0);
    }
  }

  /** Hence an empty array satisfies every array schema. */
  lemma {:induction false} EmptyArrayAccepted(schema: Value)
    requires IsSchema(schema) && HasType(schema, ArrayName)
    ensures Validate(Arr([]), schema)
  {
    ArraySchema(Arr([]), schema);
  }

  /** The order of the declared properties does not matter. */
  lemma {:induction false} PropertiesAnyOrder(data: seq<(JString, Value)>, props: Value, props': Value)
    requires props.Obj? && props'.Obj? && multiset(props.members) == multiset(props'.members)
    requires forall j :: 0 <= j < |props.members| ==> IsSchema(props.members[j].1)
    ensures forall j :: 0 <= j < |props'.members| ==> IsSchema(props'.members[j].1)
    ensures PropertiesHold(data, props, 0) == PropertiesHold(data, props', 0)
  {
    SchemasCarry(props.members, props'.members);
    PropertiesHoldAll(data, props, 0);
    PropertiesHoldAll(data, props', 0);
    if PropertiesHold(data, props, 0) {
      RoundsCarry(data, props.members, props'.members);
    }
    if PropertiesHold(data, props', 0) {
      RoundsCarry(data, props'.members, props.members);
    }
  }

  lemma {:induction false} SchemasCarry(ms: seq<(JString, Value)>, ms': seq<(JString, Value)>)
    requires multiset(ms) == multiset(ms')
    requires forall j :: 0 <= j < |ms| ==> IsSchema(ms[j].1)
    ensures forall j :: 0 <= j < |ms'| ==> IsSchema(ms'[j].1)
  {
    forall j | 0 <= j < |ms'|
      ensures IsSchema(ms'[j].1)
    {
      assert ms'[j] in multiset(ms');
      assert ms'[j] in ms;
    }
  }

  lemma {:induction false} RoundsCarry(data: seq<(JString, Value)>, ms: seq<(JString, Value)>, ms': seq<(JString, Value)>)
    requires multiset(ms) == multiset(ms')
    requires forall j :: 0 <= j < |ms| ==> IsSchema(ms[j].1)
    requires forall j :: 0 <= j < |ms'| ==> IsSchema(ms'[j].1)
    requires forall j :: 0 <= j < |ms| ==> PropertyHolds(data, ms[j].0, ms[j].1)
    ensures forall j :: 0 <= j < |ms'| ==> PropertyHolds(data, ms'[j].0, ms'[j].1)
  {
    forall j | 0 <= j < |ms'|
      ensures PropertyHolds(data, ms'[j].0, ms'[j].1)
    {
      assert ms'[j] in multiset(ms');
      var k :| 0 <= k < |ms| && ms[k] == ms'[j];
      assert PropertyHolds(data, ms[k].0, ms[k].1);
    }
  }

  /** The order of the elements does not matter. */
  lemma {:induction false} ItemsAnyOrder(items: seq<Value>, items': seq<Value>, itemSchema: Value)
    requires IsSchema(itemSchema) && multiset(items) == multiset(items')
    ensures ItemsHold(items, itemSchema, 0) == ItemsHold(items', itemSchema, 0)
  {
    InSameMultiset(items, items');
    InSameMultiset(items', items);
    ItemsHoldAll(items, itemSchema, 0);
    ItemsHoldAll(items', itemSchema, 0);
  }

  lemma {:induction false} InSameMultiset<T>(s: seq<T>, t: seq<T>)
    requires multiset(s) == multiset(t)
    ensures forall j :: 0 <= j < |t| ==> exists k :: 0 <= k < |s| && s[k] == t[j]
  {
    forall j | 0 <= j < |t|
      ensures exists k :: 0 <= k < |s| && s[k] == t[j]
    {
      assert t[j] in multiset(t);
      assert t[j] in multiset(s);
      assert t[j] in s;
    }
  }
}
