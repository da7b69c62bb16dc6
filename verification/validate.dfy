/** The fallback schema checker used when the `jsonschema` package is absent:
    a small recursive subset of JSON Schema with `type`, `required`,
    `properties` and `items`.

    Python raises `SchemaValidationError` for a failed check and some other
    exception (`AttributeError`, `TypeError`) when the schema itself has a shape
    the checker cannot walk; both are failures here, the second as
    `Malformed`.  The first error found is the one reported. */
module SchemaCheck {
  import opened Wrappers
  import opened Text
  import opened JsonValues

  datatype SchemaError =
    | TypeMismatch(path: string, expected: string)
    | MissingKey(path: string, key: Json)
    | Malformed(path: string)

  const TypeKey: string := "type"
  const RequiredKey: string := "required"
  const PropertiesKey: string := "properties"
  const ItemsKey: string := "items"

  const ObjectType: string := "object"
  const ArrayType: string := "array"
  const StringType: string := "string"
  const IntegerType: string := "integer"
  const NumberType: string := "number"

  /** The type names the checker knows; any other name accepts every value. */
  const KnownTypes: set<string> := {ObjectType, ArrayType, StringType, IntegerType, NumberType}

  /** The type names a value satisfies under Python's `isinstance`: `bool` is
      a subclass of `int`, and `int` counts as a number. */
  function Kinds(data: Json): set<string> {
    match data
    case JObj(_) => {ObjectType}
    case JArr(_) => {ArrayType}
    case JStr(_) => {StringType}
    case JInt(_) => {IntegerType, NumberType}
    case JBool(_) => {IntegerType, NumberType}
    case JReal(_) => {NumberType}
    case JNull => {}
  }

  /** Python truthiness of a JSON value. */
  predicate Truthy(j: Json) {
    match j
    case JNull => false
    case JBool(b) => b
    case JInt(i) => i != 0
    case JReal(r) => r != 0.0
    case JStr(s) => s != []
    case JArr(xs) => xs != []
    case JObj(ms) => ms != []
  }

  /** `f"{path}.{key}"`. */
  function KeyPath(path: string, key: string): string { path + "." + key }

  /** `f"{path}[{idx}]"`. */
  function ItemPath(path: string, idx: nat): string { path + "[" + NatToDecimal(idx) + "]" }

  // ---------------------------------------------------------------------------
  // `_assert_type`

  /** `_assert_type`: one `isinstance` test per known type name, in the
      source's order. */
  function AssertType(data: Json, t: string, path: string): (r: Outcome<SchemaError>)
    ensures r.Fail? ==> r.error == TypeMismatch(path, t)
  {
    if t == ObjectType && !data.JObj? then Fail(TypeMismatch(path, t))
    else if t == ArrayType && !data.JArr? then Fail(TypeMismatch(path, t))
    else if t == StringType && !data.JStr? then Fail(TypeMismatch(path, t))
    else if t == IntegerType && !(data.JInt? || data.JBool?) then Fail(TypeMismatch(path, t))
    else if t == NumberType && !(data.JInt? || data.JBool? || data.JReal?) then Fail(TypeMismatch(path, t))
    else Pass
  }

  /** A type test fails exactly when the name is known and the value is not
      of that type. */
  lemma AssertTypeMeaning(data: Json, t: string, path: string)
    ensures AssertType(data, t, path).Pass? <==> (t !in KnownTypes || t in Kinds(data))
  {
  }

  /** Booleans pass `integer` and `number`, as Python's `bool` is an `int`;
      integers pass `number`; floats do not pass `integer`. */
  lemma NumericKinds(b: bool, i: int, x: real, path: string)
    ensures AssertType(JBool(b), IntegerType, path) == Pass
    ensures AssertType(JBool(b), NumberType, path) == Pass
    ensures AssertType(JInt(i), NumberType, path) == Pass
    ensures AssertType(JReal(x), IntegerType, path) == Fail(TypeMismatch(path, IntegerType))
  {
  }

  // ---------------------------------------------------------------------------
  // `_validate_fallback`

  /** `schema.get(key, default)` on a schema that must be a dictionary. */
  function SchemaGet(schema: Json, key: string, default: Json, path: string): (r: Result<Json, SchemaError>)
    ensures r.Err? <==> !schema.JObj?
  {
    if !schema.JObj? then Err(Malformed(path))
    else match Get(schema.members, key)
      case None => Ok(default)
      case Some(v) => Ok(v)
  }

  /** `for key in required`: a list yields its elements, a string its
      characters, a dictionary its keys; anything else cannot be iterated. */
  function Iterate(required: Json, path: string): (r: Result<seq<Json>, SchemaError>)
    ensures required.JArr? ==> r == Ok(required.items)
  {
    match required
    case JArr(xs) => Ok(xs)
    case JStr(s) => Ok(seq(|s|, i requires 0 <= i < |s| => JStr([s[i]])))
    case JObj(ms) => Ok(seq(|ms|, i requires 0 <= i < |ms| => JStr(ms[i].key)))
    case _ => Err(Malformed(path))
  }

  /** The required keys, in order: each must be a key of the data.  Only
      strings can be keys; a list or an object is unhashable in Python. */
  function CheckRequired(keys: seq<Json>, members: seq<Member>, path: string): (r: Outcome<SchemaError>)
    ensures r.Pass? ==> forall i :: 0 <= i < |keys| ==> keys[i].JStr? && HasKey(members, keys[i].s)
    ensures (forall i :: 0 <= i < |keys| ==> keys[i].JStr? && HasKey(members, keys[i].s)) ==> r.Pass?
  {
    if |keys| == 0 then Pass
    else
      var k := keys[0];
      if k.JArr? || k.JObj? then Fail(Malformed(path))
      else if !k.JStr? || !HasKey(members, k.s) then Fail(MissingKey(path, k))
      else
        var rest := CheckRequired(keys[1..], members, path);
        assert forall i :: 1 <= i < |keys| ==> keys[i] == keys[1..][i - 1];
        rest
  }

  /** `key in properties`, then `properties[key]`: a dictionary is looked up;
      a list or a string only answers the membership test, and indexing it
      with a key raises; anything else cannot answer the test. */
  function PropertyFor(properties: Json, key: string, path: string): (r: Result<Option<Json>, SchemaError>)
    ensures properties.JObj? ==> r == Ok(Get(properties.members, key))
  {
    match properties
    case JObj(ps) => Ok(Get(ps, key))
    case JArr(xs) => if JStr(key) in xs then Err(Malformed(path)) else Ok(None)
    case JStr(s) => if Contains(s, key) then Err(Malformed(path)) else Ok(None)
    case _ => Err(Malformed(path))
  }

  /** `_validate_fallback(data, schema, path)`. */
  function Validate(data: Json, schema: Json, path: string): (r: Outcome<SchemaError>)
    decreases data, 2, 0
  {
    match SchemaGet(schema, TypeKey, JNull, path)
    case Err(e) => Fail(e)
    case Ok(t) =>
      var typed := if Truthy(t) && t.JStr? then AssertType(data, t.s, path) else Pass;
      if typed.Fail? then typed
      else match data
        case JObj(ms) => ValidateObject(data, schema, path)
        case JArr(xs) => ValidateArray(data, schema, path)
        case _ => Pass
  }

  /** The dictionary branch: required keys first, then each data member named
      in `properties`, in the data's order. */
  function ValidateObject(data: Json, schema: Json, path: string): (r: Outcome<SchemaError>)
    requires data.JObj? && schema.JObj?
    decreases data, 1, 0
  {
    var req := SchemaGet(schema, RequiredKey, JArr([]), path).value;
    match Iterate(req, path)
    case Err(e) => Fail(e)
    case Ok(keys) =>
      var checked := CheckRequired(keys, data.members, path);
      if checked.Fail? then checked
      else ValidateMembers(data, 0, SchemaGet(schema, PropertiesKey, JObj([]), path).value, path)
  }

  /** The loop over `data.items()` from position `i` on. */
  function ValidateMembers(data: Json, i: nat, properties: Json, path: string): (r: Outcome<SchemaError>)
    requires data.JObj? && i <= |data.members|
    decreases data, 0, |data.members| - i
  {
    if i == |data.members| then Pass
    else
      var m := data.members[i];
      assert m.value < data;
      match PropertyFor(properties, m.key, path)
      case Err(e) => Fail(e)
      case Ok(None) => ValidateMembers(data, i + 1, properties, path)
      case Ok(Some(sub)) =>
        var here := Validate(m.value, sub, KeyPath(path, m.key));
        if here.Fail? then here else ValidateMembers(data, i + 1, properties, path)
  }

  /** The list branch: with a truthy `items`, every element in order. */
  function ValidateArray(data: Json, schema: Json, path: string): (r: Outcome<SchemaError>)
    requires data.JArr? && schema.JObj?
    decreases data, 1, 0
  {
    var items := SchemaGet(schema, ItemsKey, JNull, path).value;
    if Truthy(items) then ValidateItems(data, 0, items, path) else Pass
  }

  /** The loop over the list's elements from position `i` on. */
  function ValidateItems(data: Json, i: nat, items: Json, path: string): (r: Outcome<SchemaError>)
    requires data.JArr? && i <= |data.items|
    decreases data, 0, |data.items| - i
  {
    if i == |data.items| then Pass
    else
      assert data.items[i] < data;
      var here := Validate(data.items[i], items, ItemPath(path, i));
      if here.Fail? then here else ValidateItems(data, i + 1, items, path)
  }

  // ---------------------------------------------------------------------------
  // Properties

  /** The empty schema `{}` accepts every value. */
  lemma EmptySchemaAccepts(data: Json, path: string)
    ensures Validate(data, JObj([]), path) == Pass
  {
    if data.JObj? {
      assert ValidateMembers(data, |data.members|, JObj([]), path) == Pass;
      EmptyPropertiesIgnoreMembers(data, 0, path);
    }
  }

  /** With no properties listed, no member of the data is looked at. */
  lemma {:induction false} EmptyPropertiesIgnoreMembers(data: Json, i: nat, path: string)
    requires data.JObj? && i <= |data.members|
    ensures ValidateMembers(data, i, JObj([]), path) == Pass
    decreases |data.members| - i
  {
    if i < |data.members| {
      EmptyPropertiesIgnoreMembers(data, i + 1, path);
    }
  }

  /** A schema naming only a type accepts a value exactly when the value has
      that type or the type name is unknown; a mismatch is reported at the
      path being checked. */
  lemma TypeOnlySchema(data: Json, t: string, path: string)
    ensures Validate(data, JObj([Member(TypeKey, JStr(t))]), path) ==
            (if t in KnownTypes && t !in Kinds(data) then Fail(TypeMismatch(path, t)) else Pass)
  {
    var schema := JObj([Member(TypeKey, JStr(t))]);
    assert Get(schema.members, TypeKey) == Some(JStr(t));
    AssertTypeMeaning(data, t, path);
    if data.JObj? {
      assert Get(schema.members, RequiredKey).None? && Get(schema.members, PropertiesKey).None?;
      EmptyPropertiesIgnoreMembers(data, 0, path);
    } else if data.JArr? {
      assert Get(schema.members, ItemsKey).None?;
    }
  }

  /** Whatever else the schema says, a known type name the value does not
      have fails the check at once, and a passing check means the value has
      the named type (or the name is unknown). */
  lemma TypeChecked(data: Json, schema: Json, t: string, path: string)
    requires schema.JObj? && Get(schema.members, TypeKey) == Some(JStr(t))
    ensures t in KnownTypes && t !in Kinds(data) ==> Validate(data, schema, path) == Fail(TypeMismatch(path, t))
    ensures Validate(data, schema, path).Pass? ==> t !in KnownTypes || t in Kinds(data)
  {
    AssertTypeMeaning(data, t, path);
  }

  /** For an object, a passing check means every listed required key is a
      string key of the object; so a missing required key fails the check. */
  lemma RequiredKeysPresent(data: Json, schema: Json, keys: seq<Json>, path: string)
    requires data.JObj? && schema.JObj? && Get(schema.members, RequiredKey) == Some(JArr(keys))
    ensures Validate(data, schema, path).Pass? ==>
              forall i :: 0 <= i < |keys| ==> keys[i].JStr? && HasKey(data.members, keys[i].s)
  {
    if Validate(data, schema, path).Pass? {
      assert SchemaGet(schema, RequiredKey, JArr([]), path) == Ok(JArr(keys));
      assert ValidateObject(data, schema, path).Pass?;
      assert CheckRequired(keys, data.members, path).Pass?;
    }
  }

  /** Only the data's own keys are looked up in `properties`: two property
      tables that agree on those keys give the same verdict, so keys missing
      from the data and entries missing from the table play no part. */
  lemma {:induction false} PropertiesOnlyForDataKeys(data: Json, i: nat, ps1: seq<Member>, ps2: seq<Member>, path: string)
    requires data.JObj? && i <= |data.members|
    requires forall j :: i <= j < |data.members| ==> Get(ps1, data.members[j].key) == Get(ps2, data.members[j].key)
    ensures ValidateMembers(data, i, JObj(ps1), path) == ValidateMembers(data, i, JObj(ps2), path)
    decreases |data.members| - i
  {
    if i < |data.members| {
      PropertiesOnlyForDataKeys(data, i + 1, ps1, ps2, path);
    }
  }

  /** Members whose keys the property table does not list are never checked. */
  lemma UnlistedMembersIgnored(data: Json, ps: seq<Member>, path: string)
    requires data.JObj?
    requires forall j :: 0 <= j < |data.members| ==> !HasKey(ps, data.members[j].key)
    ensures ValidateMembers(data, 0, JObj(ps), path) == Pass
  {
    PropertiesOnlyForDataKeys(data, 0, ps, [], path);
    EmptyPropertiesIgnoreMembers(data, 0, path);
  }

  /** The member loop over a property table passes exactly when every
      remaining member whose key the table lists passes that key's schema at
      its own key path. */
  lemma {:induction false} MembersAll(data: Json, i: nat, ps: seq<Member>, path: string)
    requires data.JObj? && i <= |data.members|
    ensures ValidateMembers(data, i, JObj(ps), path).Pass? <==>
            forall j :: i <= j < |data.members| && HasKey(ps, data.members[j].key) ==>
              Validate(data.members[j].value, Get(ps, data.members[j].key).value, KeyPath(path, data.members[j].key)).Pass?
    decreases |data.members| - i
  {
    if i < |data.members| {
      MembersAll(data, i + 1, ps, path);
    }
  }

  /** An object passes a schema whose type is absent or `object`, with a
      `required` list and a `properties` table, exactly when every required
      key is a string key of the object and every member the table lists
      passes its own schema at its key path. */
  lemma ObjectChecked(data: Json, schema: Json, keys: seq<Json>, ps: seq<Member>, path: string)
    requires data.JObj? && schema.JObj?
    requires Get(schema.members, TypeKey) == None || Get(schema.members, TypeKey) == Some(JStr(ObjectType))
    requires Get(schema.members, RequiredKey) == Some(JArr(keys))
    requires Get(schema.members, PropertiesKey) == Some(JObj(ps))
    ensures Validate(data, schema, path).Pass? <==>
              (forall i :: 0 <= i < |keys| ==> keys[i].JStr? && HasKey(data.members, keys[i].s)) &&
              (forall j :: 0 <= j < |data.members| && HasKey(ps, data.members[j].key) ==>
                 Validate(data.members[j].value, Get(ps, data.members[j].key).value, KeyPath(path, data.members[j].key)).Pass?)
  {
    AssertTypeMeaning(data, ObjectType, path);
    MembersAll(data, 0, ps, path);
  }

  /** The element loop passes exactly when every remaining element passes
      against `items` at its own index path. */
  lemma {:induction false} ItemsAll(data: Json, i: nat, items: Json, path: string)
    requires data.JArr? && i <= |data.items|
    ensures ValidateItems(data, i, items, path).Pass? <==>
            forall j :: i <= j < |data.items| ==> Validate(data.items[j], items, ItemPath(path, j)).Pass?
    decreases |data.items| - i
  {
    if i < |data.items| {
      ItemsAll(data, i + 1, items, path);
    }
  }

  /** An array passes a schema whose type is absent or `array` exactly when
      every element passes `items`, if `items` is given; without `items` every
      array passes. */
  lemma ArrayChecked(data: Json, schema: Json, path: string)
    requires data.JArr? && schema.JObj?
    requires Get(schema.members, TypeKey) == None || Get(schema.members, TypeKey) == Some(JStr(ArrayType))
    ensures Get(schema.members, ItemsKey) == None ==> Validate(data, schema, path) == Pass
    ensures forall items :: Get(schema.members, ItemsKey) == Some(items) && Truthy(items) ==>
              (Validate(data, schema, path).Pass? <==>
               forall j :: 0 <= j < |data.items| ==> Validate(data.items[j], items, ItemPath(path, j)).Pass?)
  {
    AssertTypeMeaning(data, ArrayType, path);
    match Get(schema.members, ItemsKey)
    case None =>
    case Some(items) => ItemsAll(data, 0, items, path);
  }
}
