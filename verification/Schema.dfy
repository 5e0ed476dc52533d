/** Compiling a type to a JSON schema (`validation.py`) and interpreting the schema (`verdict.py`). */
module Schema {
  import opened Options
  import opened Json
  import opened Validation

  /** A schema dictionary: each field is a key that may be absent. */
  datatype Schema = Schema(
    ty: Option<string>,
    items: Option<Schema>,
    properties: map<string, Schema>,
    required: seq<string>,
    additionalProperties: Option<Schema>,
    anyOf: Alternatives,
    nullable: bool)

  datatype Alternatives = Absent | Of(schemas: seq<Schema>)

  const EMPTY := Schema(None, None, map[], [], None, Absent, false)

  function TypeToSchema(ty: Type): Schema
    decreases ty, 0
  {
    match ty
    case TUnion(arms, optional) =>
      var schema :=
        if |arms| == 1 then TypeToSchema(arms[0])
        else EMPTY.(anyOf := Of(seq(|arms|, i requires 0 <= i < |arms| => TypeToSchema(arms[i]))));
      if optional then schema.(nullable := true) else schema
    case TList(item) => EMPTY.(ty := Some("array"), items := Some(TypeToSchema(item)))
    case TDict(value) => EMPTY.(ty := Some("object"), additionalProperties := Some(TypeToSchema(value)))
    case TClass(fields) => ClassSchema(fields)
    case TStr => EMPTY.(ty := Some("string"))
    case TInt => EMPTY.(ty := Some("integer"))
    case TFloat => EMPTY.(ty := Some("number"))
    case TBool => EMPTY.(ty := Some("boolean"))
    case _ => EMPTY
  }

  function ClassSchema(fields: seq<Field>): Schema
    decreases fields, 1
  {
    EMPTY.(ty := Some("object"), properties := Properties(fields), required := Required(fields))
  }

  function FieldSchema(field: Field): Schema
    decreases field, 0
  {
    TypeToSchema(field.ty)
  }

  function Properties(fields: seq<Field>): map<string, Schema>
    decreases fields, 0
  {
    if fields == [] then map[]
    else Properties(fields[..|fields| - 1])[fields[|fields| - 1].name := FieldSchema(fields[|fields| - 1])]
  }

  function Required(fields: seq<Field>): seq<string> {
    if fields == [] then []
    else
      var last := fields[|fields| - 1];
      Required(fields[..|fields| - 1]) + (if last.default.None? then [last.name] else [])
  }

  /** `to_json_schema`'s loop over the fields. */
  method ToJsonSchema(fields: seq<Field>) returns (schema: Schema)
    ensures schema == TypeToSchema(TClass(fields))
  {
    var properties: map<string, Schema>, required := map[], [];
    for i := 0 to |fields|
      invariant properties == Properties(fields[..i]) && required == Required(fields[..i])
    {
      assert fields[..i + 1][..i] == fields[..i];
      properties := properties[fields[i].name := FieldSchema(fields[i])];
      if fields[i].default.None? {
        required := required + [fields[i].name];
      }
    }
    assert fields[..|fields|] == fields;
    schema := EMPTY.(ty := Some("object"), properties := properties, required := required);
  }

  function SchemaTypeMatches(v: Json, expected: string): bool {
    if expected == "object" then v.JObject?
    else if expected == "array" then v.JArray?
    else if expected == "string" then v.JStr?
    else if expected == "integer" then v.JInt?
    else if expected == "number" then v.JInt? || v.JFloat?
    else if expected == "boolean" then v.JBool?
    else true
  }

  /** `_validate_against_schema` returning None. */
  predicate Matches(v: Json, schema: Schema)
    decreases schema
  {
    if schema.nullable && v.JNull? then true
    else if schema.anyOf.Of? then
      exists i :: 0 <= i < |schema.anyOf.schemas| && Matches(v, schema.anyOf.schemas[i])
    else if schema.ty.None? then true
    else if !SchemaTypeMatches(v, schema.ty.value) then false
    else if schema.ty.value == "object" then
      && (forall k :: k in schema.required ==> k in v.fields)
      && (forall k :: k in schema.properties && k in v.fields ==> Matches(v.fields[k], schema.properties[k]))
    else if schema.ty.value == "array" then
      schema.items.Some? ==> forall i :: 0 <= i < |v.items| ==> Matches(v.items[i], schema.items.value)
    else true
  }

  /** What any schema asks of a value, compiled or not: nothing of a null that it allows, one of its
      alternatives, and otherwise what its type says; a type of another name asks nothing. */
  lemma MatchesByCase(v: Json, s: Schema)
    ensures v.JNull? && s.nullable ==> Matches(v, s)
    ensures !(v.JNull? && s.nullable) && s.anyOf.Of? ==>
              (Matches(v, s) <==> exists i :: 0 <= i < |s.anyOf.schemas| && Matches(v, s.anyOf.schemas[i]))
    ensures !(v.JNull? && s.nullable) && s.anyOf.Absent? ==> (Matches(v, s) <==> MatchesType(v, s))
  {
  }

  ghost predicate MatchesType(v: Json, s: Schema) {
    match s.ty
    case None => true
    case Some(name) =>
      && (name == "string" ==> v.JStr?) && (name == "integer" ==> v.JInt?) && (name == "boolean" ==> v.JBool?)
      && (name == "number" ==> v.JInt? || v.JFloat?)
      && (name == "array" ==>
            && v.JArray?
            && (s.items.Some? ==> forall i :: 0 <= i < |v.items| ==> Matches(v.items[i], s.items.value)))
      && (name == "object" ==>
            && v.JObject? && (forall k :: k in s.required ==> k in v.fields)
            && forall k :: k in s.properties && k in v.fields ==> Matches(v.fields[k], s.properties[k]))
  }

  /** The keys of the schema that stands for a type, one by one. */
  ghost predicate Describes(s: Schema, ty: Type)
    decreases ty, 0
  {
    match ty
    case TStr => Bare(s, Some("string"))
    case TInt => Bare(s, Some("integer"))
    case TFloat => Bare(s, Some("number"))
    case TBool => Bare(s, Some("boolean"))
    case TAny => Bare(s, None)
    case TOther => Bare(s, None)
    case TList(item) => s.items.Some? && Describes(s.items.value, item) && Bare(s.(items := None), Some("array"))
    case TDict(value) =>
      && s.additionalProperties.Some? && Describes(s.additionalProperties.value, value)
      && Bare(s.(additionalProperties := None), Some("object"))
    case TClass(fields) =>
      && Bare(s.(properties := map[], required := []), Some("object"))
      && s.properties.Keys == (set field | field in fields :: field.name)
      && (forall i :: 0 <= i < |fields| ==>
            fields[i].name in s.properties && DescribesField(s.properties[fields[i].name], fields[i]))
      && NoRepeats(s.required)
      && forall n ::
           n in s.required <==> exists i :: 0 <= i < |fields| && fields[i].name == n && fields[i].default.None?
    case TUnion(arms, optional) =>
      if |arms| == 1 then optional && s.nullable && Describes(s.(nullable := false), arms[0])
      else
        && s.anyOf.Of? && |s.anyOf.schemas| == |arms| && s.nullable == optional
        && Bare(s.(anyOf := Absent, nullable := false), None)
        && forall i :: 0 <= i < |arms| ==> Describes(s.anyOf.schemas[i], arms[i])
  }

  ghost predicate DescribesField(s: Schema, field: Field)
    decreases field, 0
  {
    Describes(s, field.ty)
  }

  /** At most the key `type`. */
  predicate Bare(s: Schema, ty: Option<string>) {
    && s.ty == ty && s.items.None? && s.properties == map[] && s.required == [] && s.additionalProperties.None?
    && s.anyOf.Absent? && !s.nullable
  }

  /** What it means for a value to have a type, stated once for both sides. The compiled schema is
      `lax` at exactly three places: it forgets a dict's value type, it lets null through a union with
      no `None` that has an arm open to null, and it knows nothing of unsupported types. */
  predicate HasType(v: Json, ty: Type, lax: bool)
    decreases ty, 0
  {
    match ty
    case TAny => true
    case TOther => lax
    case TStr => v.JStr?
    case TInt => v.JInt?
    case TFloat => v.JInt? || v.JFloat?
    case TBool => v.JBool?
    case TList(item) => v.JArray? && forall i :: 0 <= i < |v.items| ==> HasType(v.items[i], item, lax)
    case TDict(value) => v.JObject? && (lax || forall k :: k in v.fields ==> HasType(v.fields[k], value, lax))
    case TClass(fields) => v.JObject? && forall i :: 0 <= i < |fields| ==> FieldHasType(v.fields, fields[i], lax)
    case TUnion(arms, optional) =>
      if v.JNull? && (optional || !lax) then optional
      else exists i :: 0 <= i < |arms| && HasType(v, arms[i], lax)
  }

  predicate FieldHasType(data: map<string, Json>, field: Field, lax: bool)
    decreases field, 0
  {
    if field.name in data then HasType(data[field.name], field.ty, lax) else field.default.Some?
  }

  /** Types as Python's typing module normalises them: unions flattened, never of a single member,
      field names distinct. */
  ghost predicate Flat(ty: Type)
    decreases ty, 0
  {
    match ty
    case TList(item) => Flat(item)
    case TDict(value) => Flat(value)
    case TClass(fields) => NamesDistinct(fields) && forall i :: 0 <= i < |fields| ==> FlatField(fields[i])
    case TUnion(arms, optional) =>
      && (|arms| >= 2 || (|arms| == 1 && optional))
      && forall i :: 0 <= i < |arms| ==> !arms[i].TUnion? && Flat(arms[i])
    case _ => true
  }

  ghost predicate FlatField(field: Field)
    decreases field, 0
  {
    Flat(field.ty)
  }

  // ---------- what the compiler writes ----------

  ghost predicate NoRepeats(names: seq<string>) {
    forall i, j :: 0 <= i < j < |names| ==> names[i] != names[j]
  }

  lemma {:induction false} RequiredDistinct(fields: seq<Field>)
    requires NamesDistinct(fields)
    ensures NoRepeats(Required(fields))
  {
    if fields != [] {
      var front, last := fields[..|fields| - 1], fields[|fields| - 1];
      RequiredDistinct(front);
      forall n | n in Required(front) ensures n != last.name {
        RequiredNames(front, n);
        var i :| 0 <= i < |front| && front[i].name == n;
        assert fields[i] == front[i];
      }
      OneMoreName(Required(front), last.name);
      assert Required(front) + [] == Required(front);
    }
  }

  lemma OneMoreName(names: seq<string>, n: string)
    requires NoRepeats(names) && n !in names
    ensures NoRepeats(names + [n])
  {
  }

  /** Every key of the compiled schema, those that `_validate_against_schema` never reads included. */
  lemma {:induction false} CompilesKeyByKey(ty: Type)
    requires Flat(ty)
    ensures Describes(TypeToSchema(ty), ty)
    decreases ty, 0
  {
    match ty
    case TList(item) => CompilesKeyByKey(item);
    case TDict(value) => CompilesKeyByKey(value);
    case TClass(fields) => ClassCompilesKeyByKey(fields);
    case TUnion(arms, optional) => UnionCompilesKeyByKey(arms, optional);
    case _ =>
  }

  lemma {:induction false} ClassCompilesKeyByKey(fields: seq<Field>)
    requires Flat(TClass(fields))
    ensures Describes(ClassSchema(fields), TClass(fields))
    decreases fields, 0
  {
    PropertiesByName(fields);
    RequiredDistinct(fields);
    forall n
      ensures n in Required(fields) <==> exists i :: 0 <= i < |fields| && fields[i].name == n && fields[i].default.None?
    {
      RequiredNames(fields, n);
    }
    forall i | 0 <= i < |fields| ensures DescribesField(FieldSchema(fields[i]), fields[i]) {
      FieldCompilesKeyByKey(fields[i]);
    }
    assert Properties(fields).Keys == set field | field in fields :: field.name;
  }

  lemma {:induction false} UnionCompilesKeyByKey(arms: seq<Type>, optional: bool)
    requires Flat(TUnion(arms, optional))
    ensures Describes(TypeToSchema(TUnion(arms, optional)), TUnion(arms, optional))
    decreases arms, 0
  {
    forall i | 0 <= i < |arms| ensures Describes(TypeToSchema(arms[i]), arms[i]) {
      CompilesKeyByKey(arms[i]);
    }
    if |arms| == 1 {
      NotNullable(arms[0]);
      assert TypeToSchema(TUnion(arms, optional)).(nullable := false) == TypeToSchema(arms[0]);
    }
  }

  lemma {:induction false} FieldCompilesKeyByKey(field: Field)
    requires FlatField(field)
    ensures DescribesField(FieldSchema(field), field)
    decreases field, 0
  {
    CompilesKeyByKey(field.ty);
  }

  lemma NotNullable(ty: Type)
    requires !ty.TUnion?
    ensures !TypeToSchema(ty).nullable
  {
  }

  // ---------- the compiled schema means the lax type ----------

  lemma {:induction false} PropertiesByName(fields: seq<Field>)
    requires NamesDistinct(fields)
    ensures forall i :: 0 <= i < |fields| ==>
              fields[i].name in Properties(fields) && Properties(fields)[fields[i].name] == FieldSchema(fields[i])
    ensures forall k :: k in Properties(fields) ==> exists i :: 0 <= i < |fields| && fields[i].name == k
  {
    if fields != [] {
      var n := |fields| - 1;
      PropertiesByName(fields[..n]);
      forall i | 0 <= i < |fields|
        ensures fields[i].name in Properties(fields) && Properties(fields)[fields[i].name] == FieldSchema(fields[i])
      {
        if i < n {
          assert fields[..n][i] == fields[i];
        }
      }
      forall k | k in Properties(fields) ensures exists i :: 0 <= i < |fields| && fields[i].name == k {
        if k != fields[n].name {
          var i :| 0 <= i < n && fields[..n][i].name == k;
          assert fields[i].name == k;
        }
      }
    }
  }

  lemma {:induction false} RequiredNames(fields: seq<Field>, k: string)
    ensures k in Required(fields) <==> exists i :: 0 <= i < |fields| && fields[i].name == k && fields[i].default.None?
  {
    if fields != [] {
      var n := |fields| - 1;
      RequiredNames(fields[..n], k);
      if i :| 0 <= i < |fields| && fields[i].name == k && fields[i].default.None? {
        if i < n {
          assert fields[..n][i] == fields[i];
        }
      }
      if i :| 0 <= i < n && fields[..n][i].name == k && fields[..n][i].default.None? {
        assert fields[i] == fields[..n][i];
      }
    }
  }

  /** The interpreter accepts a value against the compiled schema exactly when the value has the lax type. */
  lemma {:induction false} SchemaMeansLaxType(v: Json, ty: Type)
    requires Flat(ty)
    ensures Matches(v, TypeToSchema(ty)) <==> HasType(v, ty, true)
    decreases ty, 0
  {
    match ty
    case TList(item) => ListMeansLaxType(v, item);
    case TClass(fields) =>
      if v.JObject? {
        ClassMeansLaxType(v, fields);
      }
    case TUnion(arms, optional) => UnionMeansLaxType(v, arms, optional);
    case _ => LeafMeansLaxType(v, ty);
  }

  lemma LeafMeansLaxType(v: Json, ty: Type)
    requires !ty.TList? && !ty.TClass? && !ty.TUnion?
    ensures Matches(v, TypeToSchema(ty)) <==> HasType(v, ty, true)
  {
  }

  lemma {:induction false} ListMeansLaxType(v: Json, item: Type)
    requires Flat(item)
    ensures Matches(v, TypeToSchema(TList(item))) <==> HasType(v, TList(item), true)
    decreases item, 1
  {
    if v.JArray? {
      forall i | 0 <= i < |v.items|
        ensures Matches(v.items[i], TypeToSchema(item)) <==> HasType(v.items[i], item, true)
      {
        SchemaMeansLaxType(v.items[i], item);
      }
    }
  }

  lemma {:induction false} UnionMeansLaxType(v: Json, arms: seq<Type>, optional: bool)
    requires |arms| >= 2 || (|arms| == 1 && optional)
    requires forall i :: 0 <= i < |arms| ==> !arms[i].TUnion? && Flat(arms[i])
    ensures Matches(v, TypeToSchema(TUnion(arms, optional))) <==> HasType(v, TUnion(arms, optional), true)
    decreases arms, 0
  {
    forall i | 0 <= i < |arms|
      ensures Matches(v, TypeToSchema(arms[i])) <==> HasType(v, arms[i], true)
    {
      SchemaMeansLaxType(v, arms[i]);
    }
    if |arms| == 1 {
      assert Matches(v, TypeToSchema(arms[0])) <==> HasType(v, arms[0], true);
      OptionalSchemaMatches(v, arms[0]);
      assert HasType(v, TUnion(arms, true), true) <==> v.JNull? || HasType(v, arms[0], true);
    } else {
      AnyOfMatches(v, arms, optional);
    }
  }

  lemma OptionalSchemaMatches(v: Json, arm: Type)
    ensures Matches(v, TypeToSchema(TUnion([arm], true))) <==> v.JNull? || Matches(v, TypeToSchema(arm))
  {
    assert TypeToSchema(TUnion([arm], true)) == TypeToSchema(arm).(nullable := true);
    if !v.JNull? {
      NullableOnlyAddsNull(v, TypeToSchema(arm));
    }
  }

  lemma AnyOfMatches(v: Json, arms: seq<Type>, optional: bool)
    requires |arms| != 1
    ensures Matches(v, TypeToSchema(TUnion(arms, optional)))
       <==> (optional && v.JNull?) || exists i :: 0 <= i < |arms| && Matches(v, TypeToSchema(arms[i]))
  {
    var schema := TypeToSchema(TUnion(arms, optional));
    assert schema.anyOf.Of? && |schema.anyOf.schemas| == |arms|;
    assert forall i :: 0 <= i < |arms| ==> schema.anyOf.schemas[i] == TypeToSchema(arms[i]);
  }

  lemma NullableOnlyAddsNull(v: Json, schema: Schema)
    requires !v.JNull?
    ensures Matches(v, schema.(nullable := true)) == Matches(v, schema)
  {
  }

  lemma {:induction false} ClassMeansLaxType(v: Json, fields: seq<Field>)
    requires v.JObject? && NamesDistinct(fields) && forall i :: 0 <= i < |fields| ==> FlatField(fields[i])
    ensures Matches(v, ClassSchema(fields)) <==> HasType(v, TClass(fields), true)
    decreases fields, 0
  {
    var schema := ClassSchema(fields);
    PropertiesByName(fields);
    forall i | 0 <= i < |fields|
      ensures FieldHasType(v.fields, fields[i], true) <==>
                (fields[i].name in v.fields && Matches(v.fields[fields[i].name], FieldSchema(fields[i])))
                || (fields[i].name !in v.fields && fields[i].default.Some?)
    {
      FieldMeansLaxType(v.fields, fields[i]);
    }
    forall k
      ensures k in schema.required <==> exists i :: 0 <= i < |fields| && fields[i].name == k && fields[i].default.None?
    {
      RequiredNames(fields, k);
    }
    if HasType(v, TClass(fields), true) {
      forall k | k in schema.properties && k in v.fields ensures Matches(v.fields[k], schema.properties[k]) {
        var i :| 0 <= i < |fields| && fields[i].name == k;
        assert FieldHasType(v.fields, fields[i], true);
      }
    }
    if Matches(v, schema) {
      forall i | 0 <= i < |fields| ensures FieldHasType(v.fields, fields[i], true) {
        assert fields[i].name in schema.properties;
        if fields[i].default.None? {
          assert fields[i].name in schema.required;
        }
      }
    }
  }

  lemma {:induction false} FieldMeansLaxType(data: map<string, Json>, field: Field)
    requires FlatField(field)
    ensures field.name in data ==>
              (Matches(data[field.name], FieldSchema(field)) <==> HasType(data[field.name], field.ty, true))
    decreases field, 0
  {
    if field.name in data {
      SchemaMeansLaxType(data[field.name], field.ty);
    }
  }

  // ---------- the checker means the strict type ----------

  /** Every value the checker accepts has the type. */
  lemma {:induction false} AcceptedHasType(v: Json, ty: Type)
    requires Coerce(v, ty).Ok?
    ensures HasType(v, ty, false)
    decreases ty, 0
  {
    match ty
    case TList(item) =>
      forall i | 0 <= i < |v.items| ensures HasType(v.items[i], item, false) {
        assert CoerceItems(v.items, item)[i].Ok?;
        AcceptedHasType(v.items[i], item);
      }
    case TDict(value) =>
      forall k | k in v.fields ensures HasType(v.fields[k], value, false) {
        assert CoerceEntries(v.fields, value)[k].Ok?;
        AcceptedHasType(v.fields[k], value);
      }
    case TClass(fields) =>
      forall i | 0 <= i < |fields| ensures FieldHasType(v.fields, fields[i], false) {
        assert CoerceFields(v.fields, fields)[i].Ok?;
        AcceptedField(v.fields, fields[i]);
      }
    case TUnion(arms, _) => if !v.JNull? { AcceptedArm(v, arms); }
    case _ =>
  }

  lemma {:induction false} AcceptedField(data: map<string, Json>, field: Field)
    requires CoerceField(data, field).Ok?
    ensures FieldHasType(data, field, false)
    decreases field, 0
  {
    if field.name in data {
      AcceptedHasType(data[field.name], field.ty);
    }
  }

  lemma {:induction false} AcceptedArm(v: Json, arms: seq<Type>)
    requires CoerceArms(v, arms).Ok?
    ensures exists i :: 0 <= i < |arms| && HasType(v, arms[i], false)
    decreases arms, 0
  {
    if Coerce(v, arms[0]).Ok? {
      AcceptedHasType(v, arms[0]);
    } else {
      AcceptedArm(v, arms[1..]);
      var i :| 0 <= i < |arms| - 1 && HasType(v, arms[1..][i], false);
      assert HasType(v, arms[i + 1], false);
    }
  }

  /** A type the checker never raises TypeError on. */
  ghost predicate Supported(ty: Type)
    decreases ty, 0
  {
    match ty
    case TOther => false
    case TList(item) => Supported(item)
    case TDict(value) => Supported(value)
    case TClass(fields) => forall i :: 0 <= i < |fields| ==> SupportedField(fields[i])
    case TUnion(arms, _) => forall i :: 0 <= i < |arms| ==> Supported(arms[i])
    case _ => true
  }

  ghost predicate SupportedField(field: Field)
    decreases field, 0
  {
    Supported(field.ty)
  }

  lemma {:induction false} SupportedNeverRaises(v: Json, ty: Type)
    requires Supported(ty)
    ensures !Coerce(v, ty).Unsupported?
    decreases ty, 0
  {
    match ty
    case TList(item) =>
      if v.JArray? {
        forall i | 0 <= i < |v.items| ensures !CoerceItems(v.items, item)[i].Unsupported? {
          SupportedNeverRaises(v.items[i], item);
        }
      }
    case TDict(value) =>
      if v.JObject? {
        forall k | k in v.fields ensures !CoerceEntries(v.fields, value)[k].Unsupported? {
          SupportedNeverRaises(v.fields[k], value);
        }
      }
    case TClass(fields) =>
      if v.JObject? {
        forall i | 0 <= i < |fields| ensures !CoerceFields(v.fields, fields)[i].Unsupported? {
          SupportedFieldNeverRaises(v.fields, fields[i]);
        }
      }
    case TUnion(arms, _) => SupportedArmsNeverRaise(v, arms);
    case _ =>
  }

  lemma {:induction false} SupportedFieldNeverRaises(data: map<string, Json>, field: Field)
    requires SupportedField(field)
    ensures !CoerceField(data, field).Unsupported?
    decreases field, 0
  {
    if field.name in data {
      SupportedNeverRaises(data[field.name], field.ty);
    }
  }

  lemma {:induction false} SupportedArmsNeverRaise(v: Json, arms: seq<Type>)
    requires forall i :: 0 <= i < |arms| ==> Supported(arms[i])
    ensures !CoerceArms(v, arms).Unsupported?
    decreases arms, 0
  {
    if arms != [] {
      SupportedNeverRaises(v, arms[0]);
      SupportedArmsNeverRaise(v, arms[1..]);
    }
  }

  /** On supported types the checker accepts every value of the type. */
  lemma {:induction false} TypedIsAccepted(v: Json, ty: Type)
    requires Supported(ty) && HasType(v, ty, false)
    ensures Coerce(v, ty).Ok?
    decreases ty, 0
  {
    match ty
    case TList(item) =>
      forall i | 0 <= i < |v.items| ensures CoerceItems(v.items, item)[i].Ok? {
        TypedIsAccepted(v.items[i], item);
      }
    case TDict(value) =>
      forall k | k in v.fields ensures CoerceEntries(v.fields, value)[k].Ok? {
        TypedIsAccepted(v.fields[k], value);
      }
    case TClass(fields) =>
      forall i | 0 <= i < |fields| ensures CoerceFields(v.fields, fields)[i].Ok? {
        TypedFieldIsAccepted(v.fields, fields[i]);
      }
    case TUnion(arms, _) => if !v.JNull? { TypedArmIsAccepted(v, arms); }
    case _ =>
  }

  lemma {:induction false} TypedFieldIsAccepted(data: map<string, Json>, field: Field)
    requires SupportedField(field) && FieldHasType(data, field, false)
    ensures CoerceField(data, field).Ok?
    decreases field, 0
  {
    if field.name in data {
      TypedIsAccepted(data[field.name], field.ty);
    }
  }

  lemma {:induction false} TypedArmIsAccepted(v: Json, arms: seq<Type>)
    requires forall i :: 0 <= i < |arms| ==> Supported(arms[i])
    requires exists i :: 0 <= i < |arms| && HasType(v, arms[i], false)
    ensures CoerceArms(v, arms).Ok?
    decreases arms, 0
  {
    SupportedNeverRaises(v, arms[0]);
    var i :| 0 <= i < |arms| && HasType(v, arms[i], false);
    if i == 0 {
      TypedIsAccepted(v, arms[0]);
    } else if Coerce(v, arms[0]).Invalid? {
      assert arms[1..][i - 1] == arms[i];
      TypedArmIsAccepted(v, arms[1..]);
    }
  }

  // ---------- where strict and lax meet ----------

  lemma {:induction false} StrictIsLax(v: Json, ty: Type)
    requires HasType(v, ty, false)
    ensures HasType(v, ty, true)
    decreases ty, 0
  {
    match ty
    case TList(item) =>
      forall i | 0 <= i < |v.items| ensures HasType(v.items[i], item, true) {
        StrictIsLax(v.items[i], item);
      }
    case TClass(fields) =>
      forall i | 0 <= i < |fields| ensures FieldHasType(v.fields, fields[i], true) {
        StrictFieldIsLax(v.fields, fields[i]);
      }
    case TUnion(arms, _) =>
      if !v.JNull? {
        var i :| 0 <= i < |arms| && HasType(v, arms[i], false);
        StrictIsLax(v, arms[i]);
      }
    case _ =>
  }

  lemma {:induction false} StrictFieldIsLax(data: map<string, Json>, field: Field)
    requires FieldHasType(data, field, false)
    ensures FieldHasType(data, field, true)
    decreases field, 0
  {
    if field.name in data {
      StrictIsLax(data[field.name], field.ty);
    }
  }

  /** Types on which the schema loses nothing: supported, dicts only with values of type Any, and Any
      an arm only of unions that admit None. */
  ghost predicate Clean(ty: Type)
    decreases ty, 0
  {
    match ty
    case TOther => false
    case TList(item) => Clean(item)
    case TDict(value) => value.TAny?
    case TClass(fields) => forall i :: 0 <= i < |fields| ==> CleanField(fields[i])
    case TUnion(arms, optional) => forall i :: 0 <= i < |arms| ==> Clean(arms[i]) && (arms[i].TAny? ==> optional)
    case _ => true
  }

  ghost predicate CleanField(field: Field)
    decreases field, 0
  {
    Clean(field.ty)
  }

  lemma {:induction false} LaxIsStrictWhenClean(v: Json, ty: Type)
    requires Flat(ty) && Clean(ty) && HasType(v, ty, true)
    ensures HasType(v, ty, false) && Supported(ty)
    decreases ty, 0
  {
    CleanIsSupported(ty);
    match ty
    case TList(item) =>
      forall i | 0 <= i < |v.items| ensures HasType(v.items[i], item, false) {
        LaxIsStrictWhenClean(v.items[i], item);
      }
    case TClass(fields) =>
      forall i | 0 <= i < |fields| ensures FieldHasType(v.fields, fields[i], false) {
        LaxFieldIsStrict(v.fields, fields[i]);
      }
    case TUnion(arms, optional) =>
      if !(v.JNull? && optional) {
        var i :| 0 <= i < |arms| && HasType(v, arms[i], true);
        LaxIsStrictWhenClean(v, arms[i]);
      }
    case _ =>
  }

  lemma {:induction false} LaxFieldIsStrict(data: map<string, Json>, field: Field)
    requires FlatField(field) && CleanField(field) && FieldHasType(data, field, true)
    ensures FieldHasType(data, field, false)
    decreases field, 0
  {
    if field.name in data {
      LaxIsStrictWhenClean(data[field.name], field.ty);
    }
  }

  lemma {:induction false} CleanIsSupported(ty: Type)
    requires Clean(ty)
    ensures Supported(ty)
    decreases ty, 0
  {
    match ty
    case TList(item) => CleanIsSupported(item);
    case TClass(fields) =>
      forall i | 0 <= i < |fields| ensures SupportedField(fields[i]) {
        CleanFieldIsSupported(fields[i]);
      }
    case TUnion(arms, _) =>
      forall i | 0 <= i < |arms| ensures Supported(arms[i]) {
        CleanIsSupported(arms[i]);
      }
    case _ =>
  }

  lemma {:induction false} CleanFieldIsSupported(field: Field)
    requires CleanField(field)
    ensures SupportedField(field)
    decreases field, 0
  {
    CleanIsSupported(field.ty);
  }

  // ---------- compiler correctness ----------

  /** For every type and every JSON value: what the checker accepts, the compiled schema accepts. */
  lemma SchemaCompilerSound(v: Json, ty: Type)
    requires Flat(ty) && Coerce(v, ty).Ok?
    ensures Matches(v, TypeToSchema(ty))
  {
    AcceptedHasType(v, ty);
    StrictIsLax(v, ty);
    SchemaMeansLaxType(v, ty);
  }

  /** On clean types the two agree on every value. */
  lemma SchemaCompilerComplete(v: Json, ty: Type)
    requires Flat(ty) && Clean(ty)
    ensures Coerce(v, ty).Ok? <==> Matches(v, TypeToSchema(ty))
  {
    SchemaMeansLaxType(v, ty);
    if Coerce(v, ty).Ok? {
      SchemaCompilerSound(v, ty);
    } else if HasType(v, ty, true) {
      LaxIsStrictWhenClean(v, ty);
      TypedIsAccepted(v, ty);
    }
  }

  /** Every value the compiled schema accepts, the checker accepts too. */
  ghost predicate CompiledWithoutLoss(ty: Type) {
    forall v :: Matches(v, TypeToSchema(ty)) ==> Coerce(v, ty).Ok?
  }

  ghost predicate AdmitsEverything(ty: Type) {
    forall v :: Coerce(v, ty).Ok?
  }

  /** At values: of a type with no unsupported part exactly those are lost that have it read laxly and not
      strictly. */
  lemma SchemaLossExactly(v: Json, ty: Type)
    requires Flat(ty) && Supported(ty)
    ensures (Matches(v, TypeToSchema(ty)) && !Coerce(v, ty).Ok?) <==> HasType(v, ty, true) && !HasType(v, ty, false)
  {
    SchemaMeansLaxType(v, ty);
    if Coerce(v, ty).Ok? {
      AcceptedHasType(v, ty);
    } else if HasType(v, ty, false) {
      TypedIsAccepted(v, ty);
    }
  }

  lemma DictKeepsAll(value: Type, v: Json)
    requires AdmitsEverything(value) && v.JObject?
    ensures Coerce(v, TDict(value)).Ok?
  {
    forall k | k in v.fields ensures CoerceEntries(v.fields, value)[k].Ok? {
      assert Coerce(v.fields[k], value).Ok?;
    }
  }

  lemma DictLoses(value: Type, w: Json) returns (v: Json)
    requires !Coerce(w, value).Ok?
    ensures Matches(v, TypeToSchema(TDict(value))) && !Coerce(v, TDict(value)).Ok?
  {
    v := JObject(map["k" := w]);
    assert CoerceEntries(v.fields, value)["k"] == Coerce(w, value);
  }

  /** A dict type is compiled without loss exactly when its value type admits every JSON value. */
  lemma DictSchemaExact(value: Type)
    ensures CompiledWithoutLoss(TDict(value)) <==> AdmitsEverything(value)
  {
    if AdmitsEverything(value) {
      forall v | Matches(v, TypeToSchema(TDict(value))) ensures Coerce(v, TDict(value)).Ok? {
        DictKeepsAll(value, v);
      }
    } else {
      var w :| !Coerce(w, value).Ok?;
      var v := DictLoses(value, w);
    }
  }

  /** An object of strings passes for a dict of integers. */
  lemma DictSchemaTakesOtherValues() returns (v: Json)
    ensures Matches(v, TypeToSchema(TDict(TInt))) && !Coerce(v, TDict(TInt)).Ok?
  {
    v := DictLoses(TInt, JStr("one"));
  }

  /** Null passes for a union of Any and a string, which does not admit it. */
  lemma UnionSchemaTakesNull()
    ensures Matches(JNull, TypeToSchema(TUnion([TStr, TAny], false))) && !Coerce(JNull, TUnion([TStr, TAny], false)).Ok?
  {
    var arms := [TStr, TAny];
    assert Matches(JNull, TypeToSchema(arms[1]));
    AnyOfMatches(JNull, arms, false);
  }

  lemma {:induction false} SomeArmAccepts(v: Json, arms: seq<Type>)
    requires forall i :: 0 <= i < |arms| ==> Supported(arms[i])
    ensures CoerceArms(v, arms).Ok? <==> exists i :: 0 <= i < |arms| && Coerce(v, arms[i]).Ok?
    decreases |arms|
  {
    if arms != [] {
      SupportedNeverRaises(v, arms[0]);
      SomeArmAccepts(v, arms[1..]);
      if i :| 0 <= i < |arms| && Coerce(v, arms[i]).Ok? {
        assert i > 0 ==> arms[1..][i - 1] == arms[i];
      }
      if i :| 0 <= i < |arms| - 1 && Coerce(v, arms[1..][i]).Ok? {
        assert arms[1..][i] == arms[i + 1];
      }
    }
  }

  /** A union without None loses exactly the values that some arm's schema takes and that are null or that
      no arm accepts. */
  lemma UnionSchemaExact(v: Json, arms: seq<Type>)
    requires |arms| >= 2 && forall i :: 0 <= i < |arms| ==> Supported(arms[i])
    ensures (Matches(v, TypeToSchema(TUnion(arms, false))) && !Coerce(v, TUnion(arms, false)).Ok?)
       <==> && (exists i :: 0 <= i < |arms| && Matches(v, TypeToSchema(arms[i])))
            && (v.JNull? || forall i :: 0 <= i < |arms| ==> !Coerce(v, arms[i]).Ok?)
  {
    AnyOfMatches(v, arms, false);
    SomeArmAccepts(v, arms);
  }

  /** If its arms are clean it loses null alone, and only when Any is among them. */
  lemma CleanUnionLosesOnlyNull(v: Json, arms: seq<Type>)
    requires |arms| >= 2 && forall i :: 0 <= i < |arms| ==> !arms[i].TUnion? && Flat(arms[i]) && Clean(arms[i])
    ensures (Matches(v, TypeToSchema(TUnion(arms, false))) && !Coerce(v, TUnion(arms, false)).Ok?)
       <==> (v.JNull? && TAny in arms)
  {
    forall i | 0 <= i < |arms|
      ensures Supported(arms[i]) && (Matches(v, TypeToSchema(arms[i])) <==> Coerce(v, arms[i]).Ok?)
    {
      CleanIsSupported(arms[i]);
      SchemaCompilerComplete(v, arms[i]);
    }
    UnionSchemaExact(v, arms);
    if v.JNull? {
      forall i | 0 <= i < |arms| ensures Coerce(v, arms[i]).Ok? <==> arms[i] == TAny {
        OnlyAnyTakesNull(arms[i]);
      }
    }
  }

  lemma OnlyAnyTakesNull(ty: Type)
    requires !ty.TUnion?
    ensures Coerce(JNull, ty).Ok? <==> ty == TAny
  {
  }

  // ---------- exactly which types without unions are compiled without loss ----------

  ghost predicate UnionFree(ty: Type)
    decreases ty, 0
  {
    match ty
    case TUnion(_, _) => false
    case TList(item) => UnionFree(item)
    case TDict(value) => UnionFree(value)
    case TClass(fields) => forall i :: 0 <= i < |fields| ==> UnionFreeField(fields[i])
    case _ => true
  }

  ghost predicate UnionFreeField(field: Field)
    decreases field, 0
  {
    UnionFree(field.ty)
  }

  /** Some value of the lax type. */
  function Sample(ty: Type): Json
    decreases ty, 0
  {
    match ty
    case TStr => JStr("")
    case TInt => JInt(0)
    case TFloat => JInt(0)
    case TBool => JBool(true)
    case TList(_) => JArray([])
    case TDict(_) => JObject(map[])
    case TClass(fields) => JObject(Samples(fields))
    case _ => JNull
  }

  function Samples(fields: seq<Field>): map<string, Json>
    decreases fields, 0
  {
    if fields == [] then map[]
    else Samples(fields[..|fields| - 1])[fields[|fields| - 1].name := SampleField(fields[|fields| - 1])]
  }

  function SampleField(field: Field): Json
    decreases field, 0
  {
    Sample(field.ty)
  }

  lemma {:induction false} SamplesByName(fields: seq<Field>)
    requires NamesDistinct(fields)
    ensures forall i :: 0 <= i < |fields| ==>
              fields[i].name in Samples(fields)
              && Samples(fields)[fields[i].name] == SampleField(fields[i])
  {
    if fields != [] {
      var n := |fields| - 1;
      SamplesByName(fields[..n]);
      forall i | 0 <= i < |fields|
        ensures fields[i].name in Samples(fields) && Samples(fields)[fields[i].name] == SampleField(fields[i])
      {
        if i < n {
          assert fields[..n][i] == fields[i];
        }
      }
    }
  }

  lemma {:induction false} SampleHasType(ty: Type)
    requires Flat(ty) && UnionFree(ty)
    ensures HasType(Sample(ty), ty, true)
    decreases ty, 0
  {
    if ty.TClass? {
      SamplesByName(ty.fields);
      forall i | 0 <= i < |ty.fields| ensures FieldHasType(Samples(ty.fields), ty.fields[i], true) {
        assert FlatField(ty.fields[i]) && UnionFreeField(ty.fields[i]);
        SampleHasType(ty.fields[i].ty);
      }
    }
  }

  /** A value that the schema takes and the checker does not. */
  lemma {:induction false} LossWitness(ty: Type) returns (v: Json)
    requires Flat(ty) && UnionFree(ty) && !Clean(ty)
    ensures HasType(v, ty, true) && !Coerce(v, ty).Ok?
    decreases ty, 0
  {
    match ty
    case TList(item) =>
      var w := LossWitness(item);
      v := JArray([w]);
      assert CoerceItems(v.items, item)[0] == Coerce(w, item);
    case TDict(value) =>
      v := JObject(map["k" := JNull]);
      assert CoerceEntries(v.fields, value)["k"] == Coerce(JNull, value);
    case TClass(fields) =>
      var i :| 0 <= i < |fields| && !CleanField(fields[i]);
      assert FlatField(fields[i]) && UnionFreeField(fields[i]);
      var w := LossWitness(fields[i].ty);
      v := ClassLossWitness(fields, i, w);
    case _ => v := JNull;
  }

  lemma ClassLossWitness(fields: seq<Field>, i: nat, w: Json) returns (v: Json)
    requires Flat(TClass(fields)) && UnionFree(TClass(fields)) && i < |fields|
    requires HasType(w, fields[i].ty, true) && !Coerce(w, fields[i].ty).Ok?
    ensures HasType(v, TClass(fields), true) && !Coerce(v, TClass(fields)).Ok?
  {
    SamplesByName(fields);
    var data := Samples(fields)[fields[i].name := w];
    v := JObject(data);
    forall j | 0 <= j < |fields| ensures FieldHasType(data, fields[j], true) {
      assert FlatField(fields[j]) && UnionFreeField(fields[j]);
      if j != i {
        assert fields[j].name != fields[i].name;
        SampleHasType(fields[j].ty);
      }
    }
    assert CoerceFields(data, fields)[i] == Coerce(w, fields[i].ty);
  }

  /** Without unions, a type is compiled without loss exactly when it is clean: every dict in it is of Any,
      and no part is of an unsupported type. */
  lemma UnionFreeSchemaExact(ty: Type)
    requires Flat(ty) && UnionFree(ty)
    ensures CompiledWithoutLoss(ty) <==> Clean(ty)
  {
    if Clean(ty) {
      forall v | Matches(v, TypeToSchema(ty)) ensures Coerce(v, ty).Ok? {
        SchemaCompilerComplete(v, ty);
      }
    } else {
      var v := LossWitness(ty);
      SchemaMeansLaxType(v, ty);
    }
  }
}
