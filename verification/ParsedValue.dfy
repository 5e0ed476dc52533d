/** What the checker makes of a value it accepts, said without the checker. */
module ParsedValue {
  import opened Options
  import opened Json
  import opened Validation
  import opened Schema

  /** The value stands as it is, but that an integer read as a float becomes that float; lists and dicts are
      rebuilt place by place; a dataclass has its fields, those that are absent filled by their default; and
      a union gives what its first arm that has the value gives. */
  ghost predicate Becomes(v: Json, ty: Type, r: Val)
    decreases ty, 0
  {
    match ty
    case TStr => v.JStr? && r == VJson(v)
    case TInt => v.JInt? && r == VJson(v)
    case TBool => v.JBool? && r == VJson(v)
    case TFloat => (v.JFloat? && r == VJson(v)) || (v.JInt? && r == VJson(JFloat(Finite(v.i as real))))
    case TAny => r == VJson(v)
    case TOther => false
    case TList(item) =>
      && v.JArray? && r.VList? && |r.items| == |v.items|
      && forall i :: 0 <= i < |v.items| ==> Becomes(v.items[i], item, r.items[i])
    case TDict(value) =>
      && v.JObject? && r.VDict? && r.entries.Keys == v.fields.Keys
      && forall k :: k in v.fields ==> Becomes(v.fields[k], value, r.entries[k])
    case TClass(fields) =>
      && v.JObject? && r.VInst? && r.attrs.Keys == (set field | field in fields :: field.name)
      && forall i :: 0 <= i < |fields| ==>
           fields[i].name in r.attrs && FieldBecomes(v.fields, fields[i], r.attrs[fields[i].name])
    case TUnion(arms, optional) =>
      if v.JNull? then optional && r == VJson(JNull)
      else exists k :: FirstToHave(v, arms, k) && Becomes(v, arms[k], r)
  }

  ghost predicate FieldBecomes(data: map<string, Json>, field: Field, r: Val)
    decreases field, 0
  {
    if field.name in data then Becomes(data[field.name], field.ty, r) else field.default == Some(r)
  }

  ghost predicate FirstToHave(v: Json, arms: seq<Type>, k: int) {
    0 <= k < |arms| && HasType(v, arms[k], false) && forall i :: 0 <= i < k ==> !HasType(v, arms[i], false)
  }

  // ---------- a value of the type is not rejected ----------

  lemma {:induction false} TypedIsNotRejected(v: Json, ty: Type)
    requires HasType(v, ty, false)
    ensures !Coerce(v, ty).Invalid?
    decreases ty, 0
  {
    match ty
    case TList(item) =>
      forall i | 0 <= i < |v.items| ensures !CoerceItems(v.items, item)[i].Invalid? {
        TypedIsNotRejected(v.items[i], item);
      }
    case TDict(value) =>
      forall k | k in v.fields ensures !CoerceEntries(v.fields, value)[k].Invalid? {
        TypedIsNotRejected(v.fields[k], value);
      }
    case TClass(fields) =>
      forall i | 0 <= i < |fields| ensures !CoerceFields(v.fields, fields)[i].Invalid? {
        TypedFieldIsNotRejected(v.fields, fields[i]);
      }
    case TUnion(arms, _) => if !v.JNull? { TypedArmIsNotRejected(v, arms); }
    case _ =>
  }

  lemma {:induction false} TypedFieldIsNotRejected(data: map<string, Json>, field: Field)
    requires FieldHasType(data, field, false)
    ensures !CoerceField(data, field).Invalid?
    decreases field, 0
  {
    if field.name in data {
      TypedIsNotRejected(data[field.name], field.ty);
    }
  }

  lemma {:induction false} TypedArmIsNotRejected(v: Json, arms: seq<Type>)
    requires exists i :: 0 <= i < |arms| && HasType(v, arms[i], false)
    ensures !CoerceArms(v, arms).Invalid?
    decreases arms, 0
  {
    var i :| 0 <= i < |arms| && HasType(v, arms[i], false);
    if i == 0 {
      TypedIsNotRejected(v, arms[0]);
    } else if Coerce(v, arms[0]).Invalid? {
      assert arms[1..][i - 1] == arms[i];
      TypedArmIsNotRejected(v, arms[1..]);
    }
  }

  // ---------- what is accepted becomes what it should ----------

  /** Whatever the type, unsupported parts included. */
  lemma {:induction false} AcceptedBecomes(v: Json, ty: Type)
    requires Flat(ty) && Coerce(v, ty).Ok?
    ensures Becomes(v, ty, Coerce(v, ty).value)
    decreases ty, 0
  {
    match ty
    case TList(item) =>
      var outs := CoerceItems(v.items, item);
      forall i | 0 <= i < |v.items| ensures Becomes(v.items[i], item, AllOf(outs).value[i]) {
        assert outs[i] == Ok(AllOf(outs).value[i]);
        AcceptedBecomes(v.items[i], item);
      }
    case TDict(value) =>
      var outs := CoerceEntries(v.fields, value);
      forall k | k in v.fields ensures Becomes(v.fields[k], value, AllEntries(outs).value[k]) {
        assert outs[k] == Ok(AllEntries(outs).value[k]);
        AcceptedBecomes(v.fields[k], value);
      }
    case TClass(fields) =>
      InstanceByField(v, fields);
      forall i | 0 <= i < |fields|
        ensures FieldBecomes(v.fields, fields[i], Coerce(v, ty).value.attrs[fields[i].name])
      {
        FieldAcceptedBecomes(v.fields, fields[i]);
      }
    case TUnion(arms, _) => if !v.JNull? { ArmAcceptedBecomes(v, arms); }
    case _ =>
  }

  lemma {:induction false} FieldAcceptedBecomes(data: map<string, Json>, field: Field)
    requires FlatField(field) && CoerceField(data, field).Ok?
    ensures FieldBecomes(data, field, CoerceField(data, field).value)
    decreases field, 0
  {
    if field.name in data {
      AcceptedBecomes(data[field.name], field.ty);
    }
  }

  lemma {:induction false} ArmAcceptedBecomes(v: Json, arms: seq<Type>)
    requires (forall i :: 0 <= i < |arms| ==> Flat(arms[i])) && CoerceArms(v, arms).Ok?
    ensures exists k :: FirstToHave(v, arms, k) && Becomes(v, arms[k], CoerceArms(v, arms).value)
    decreases arms, 0
  {
    if Coerce(v, arms[0]).Ok? {
      AcceptedHasType(v, arms[0]);
      AcceptedBecomes(v, arms[0]);
      assert FirstToHave(v, arms, 0);
    } else {
      ArmAcceptedBecomes(v, arms[1..]);
      var k :| FirstToHave(v, arms[1..], k) && Becomes(v, arms[1..][k], CoerceArms(v, arms).value);
      if HasType(v, arms[0], false) {
        TypedIsNotRejected(v, arms[0]);
      }
      assert FirstToHave(v, arms, k + 1) by {
        assert forall i :: 0 < i < |arms| ==> arms[1..][i - 1] == arms[i];
      }
    }
  }

  // ---------- and nothing else ----------

  lemma {:induction false} BecomesHasType(v: Json, ty: Type, r: Val)
    requires Becomes(v, ty, r)
    ensures HasType(v, ty, false)
    decreases ty, 0
  {
    match ty
    case TList(item) =>
      forall i | 0 <= i < |v.items| ensures HasType(v.items[i], item, false) {
        BecomesHasType(v.items[i], item, r.items[i]);
      }
    case TDict(value) =>
      forall k | k in v.fields ensures HasType(v.fields[k], value, false) {
        BecomesHasType(v.fields[k], value, r.entries[k]);
      }
    case TClass(fields) =>
      forall i | 0 <= i < |fields| ensures FieldHasType(v.fields, fields[i], false) {
        FieldBecomesHasType(v.fields, fields[i], r.attrs[fields[i].name]);
      }
    case _ =>
  }

  lemma {:induction false} FieldBecomesHasType(data: map<string, Json>, field: Field, r: Val)
    requires FieldBecomes(data, field, r)
    ensures FieldHasType(data, field, false)
    decreases field, 0
  {
    if field.name in data {
      BecomesHasType(data[field.name], field.ty, r);
    }
  }

  lemma {:induction false} BecomesOneValue(v: Json, ty: Type, r: Val, q: Val)
    requires Becomes(v, ty, r) && Becomes(v, ty, q)
    ensures r == q
    decreases ty, 0
  {
    match ty
    case TList(item) =>
      forall i | 0 <= i < |v.items| ensures r.items[i] == q.items[i] {
        BecomesOneValue(v.items[i], item, r.items[i], q.items[i]);
      }
    case TDict(value) =>
      forall k | k in v.fields ensures r.entries[k] == q.entries[k] {
        BecomesOneValue(v.fields[k], value, r.entries[k], q.entries[k]);
      }
    case TClass(fields) =>
      forall a | a in r.attrs ensures r.attrs[a] == q.attrs[a] {
        var field :| field in fields && field.name == a;
        var i :| 0 <= i < |fields| && fields[i] == field;
        FieldBecomesOneValue(v.fields, fields[i], r.attrs[a], q.attrs[a]);
      }
      assert r.attrs == q.attrs;
    case TUnion(arms, _) =>
      if !v.JNull? {
        var k :| FirstToHave(v, arms, k) && Becomes(v, arms[k], r);
        var m :| FirstToHave(v, arms, m) && Becomes(v, arms[m], q);
        assert k == m;
        BecomesOneValue(v, arms[k], r, q);
      }
    case _ =>
  }

  lemma {:induction false} FieldBecomesOneValue(data: map<string, Json>, field: Field, r: Val, q: Val)
    requires FieldBecomes(data, field, r) && FieldBecomes(data, field, q)
    ensures r == q
    decreases field, 0
  {
    if field.name in data {
      BecomesOneValue(data[field.name], field.ty, r, q);
    }
  }

  lemma BecomesIsAccepted(v: Json, ty: Type, r: Val)
    requires Flat(ty) && Supported(ty) && Becomes(v, ty, r)
    ensures Coerce(v, ty) == Ok(r)
  {
    BecomesHasType(v, ty, r);
    TypedIsAccepted(v, ty);
    AcceptedBecomes(v, ty);
    BecomesOneValue(v, ty, r, Coerce(v, ty).value);
  }

  /** On supported types the checker answers exactly the value that the given one becomes ... */
  lemma ParsesExactly(v: Json, ty: Type, r: Val)
    requires Flat(ty) && Supported(ty)
    ensures Coerce(v, ty) == Ok(r) <==> Becomes(v, ty, r)
  {
    if Becomes(v, ty, r) {
      BecomesIsAccepted(v, ty, r);
    } else if Coerce(v, ty).Ok? {
      AcceptedBecomes(v, ty);
    }
  }

  ghost predicate BecomesNothing(v: Json, ty: Type) {
    forall r :: !Becomes(v, ty, r)
  }

  /** ... and rejects a value exactly when it becomes nothing. */
  lemma RejectsExactly(v: Json, ty: Type)
    requires Flat(ty) && Supported(ty)
    ensures Coerce(v, ty).Invalid? <==> BecomesNothing(v, ty)
  {
    SupportedNeverRaises(v, ty);
    if Coerce(v, ty).Ok? {
      AcceptedBecomes(v, ty);
      var r := Coerce(v, ty).value;
      assert Becomes(v, ty, r);
    } else {
      forall r ensures !Becomes(v, ty, r) {
        if Becomes(v, ty, r) {
          BecomesIsAccepted(v, ty, r);
        }
      }
    }
  }
}
