/** Replaying a captured request: the parsed value is captured through `dataclasses.asdict` and later
    sent, and parsed, again. When does the second parse return the same value? */
module Reparse {
  import opened Options
  import opened Json
  import opened Validation
  import Schema

  /** `dataclasses.asdict`, down to JSON. */
  function AsDict(v: Val): Json {
    match v
    case VJson(j) => j
    case VList(items) => JArray(seq(|items|, i requires 0 <= i < |items| => AsDict(items[i])))
    case VDict(entries) => JObject(map k | k in entries :: AsDict(entries[k]))
    case VInst(attrs) => JObject(map k | k in attrs :: AsDict(attrs[k]))
  }

  /** Types the checker copies through unchanged: no floats, no instances, no unions. */
  ghost predicate CopiedThrough(ty: Type)
    decreases ty
  {
    match ty
    case TStr => true
    case TInt => true
    case TBool => true
    case TAny => true
    case TOther => true
    case TList(item) => CopiedThrough(item)
    case TDict(value) => CopiedThrough(value)
    case _ => false
  }

  /** Nothing that `later` accepts and turns into an instance, a dict or a list has a dict form that
      `earlier` could accept; after Any or an unsupported type, a later arm is never reached. */
  ghost predicate Apart(earlier: Type, later: Type) {
    match earlier
    case TAny => true
    case TOther => true
    case TList(_) => later.TDict? || later.TClass?
    case TDict(_) => later.TList?
    case TClass(fields) =>
      later.TList? || (later.TClass? && Schema.Supported(earlier) && AsksForMore(fields, later.fields))
    case TUnion(_, _) => false
    case _ => later.TList? || later.TDict? || later.TClass?
  }

  function FieldNames(fields: seq<Field>): set<string> {
    set field | field in fields :: field.name
  }

  /** Some field that the first requires the second does not have. */
  predicate AsksForMore(first: seq<Field>, second: seq<Field>) {
    exists i :: 0 <= i < |first| && first[i].default.None? && first[i].name !in FieldNames(second)
  }

  /** Types that survive the round trip: each arm of a union does, and is a float, is copied through, or
      is apart from every arm before it, as an only dataclass among scalars is, and one of several if each
      before it requires a field that it does not have; a field's default is a value its own type would
      parse back. */
  ghost predicate Stable(ty: Type)
    decreases ty, 0
  {
    match ty
    case TList(item) => Stable(item)
    case TDict(value) => Stable(value)
    case TClass(fields) => NamesDistinct(fields) && forall i :: 0 <= i < |fields| ==> StableField(fields[i])
    case TUnion(arms, _) =>
      forall k :: 0 <= k < |arms| ==> !arms[k].TUnion? && Stable(arms[k]) && KeepsPlace(arms, k)
    case _ => true
  }

  /** No arm before the k-th takes over the dict form of a value that the k-th made. */
  ghost predicate KeepsPlace(arms: seq<Type>, k: nat)
    requires k < |arms|
  {
    arms[k].TFloat? || CopiedThrough(arms[k]) || forall i :: 0 <= i < k ==> Apart(arms[i], arms[k])
  }

  ghost predicate StableField(field: Field)
    decreases field, 0
  {
    && Stable(field.ty)
    && (field.default.Some? ==> Coerce(AsDict(field.default.value), field.ty) == Ok(field.default.value))
  }

  lemma {:induction false} CopyIsIdentity(v: Json, ty: Type)
    requires CopiedThrough(ty) && Coerce(v, ty).Ok?
    ensures AsDict(Coerce(v, ty).value) == v
    decreases ty
  {
    match ty
    case TList(item) =>
      var outs := CoerceItems(v.items, item);
      var vs := AllOf(outs).value;
      forall i | 0 <= i < |v.items| ensures AsDict(vs[i]) == v.items[i] {
        assert outs[i] == Ok(vs[i]);
        CopyIsIdentity(v.items[i], item);
      }
      assert AsDict(VList(vs)).items == v.items;
    case TDict(value) =>
      var outs := CoerceEntries(v.fields, value);
      var m := AllEntries(outs).value;
      forall k | k in v.fields ensures AsDict(m[k]) == v.fields[k] {
        assert outs[k] == Ok(m[k]);
        CopyIsIdentity(v.fields[k], value);
      }
      assert AsDict(VDict(m)).fields == v.fields;
    case _ =>
  }

  /** Only the null of an optional union, and Any, ever parse to null. */
  lemma NullOnlyFromNull(v: Json, ty: Type)
    requires Coerce(v, ty).Ok? && !v.JNull? && !ty.TUnion?
    ensures !AsDict(Coerce(v, ty).value).JNull?
  {
  }

  // ---------- unions ----------

  ghost predicate FirstToAccept(v: Json, arms: seq<Type>, k: nat) {
    k < |arms| && !Coerce(v, arms[k]).Invalid? && forall i :: 0 <= i < k ==> Coerce(v, arms[i]).Invalid?
  }

  lemma {:induction false} FirstArmDecides(v: Json, arms: seq<Type>, k: nat)
    requires FirstToAccept(v, arms, k)
    ensures CoerceArms(v, arms) == Coerce(v, arms[k])
    decreases k
  {
    if k > 0 {
      assert forall i :: 0 <= i < k - 1 ==> arms[1..][i] == arms[i + 1];
      FirstArmDecides(v, arms[1..], k - 1);
    }
  }

  lemma {:induction false} SomeArmIsFirst(v: Json, arms: seq<Type>) returns (k: nat)
    requires !CoerceArms(v, arms).Invalid?
    ensures FirstToAccept(v, arms, k)
  {
    if !Coerce(v, arms[0]).Invalid? {
      k := 0;
    } else {
      var j := SomeArmIsFirst(v, arms[1..]);
      k := j + 1;
      forall i | 0 <= i < k ensures Coerce(v, arms[i]).Invalid? {
        if i > 0 {
          assert arms[1..][i - 1] == arms[i];
        }
      }
    }
  }

  /** Exactly when a union gives a value back, once its arms do: the first arm that does not reject the
      dict form must make the same value of it. */
  lemma UnionRoundTripsExactly(v: Json, arms: seq<Type>, optional: bool, k: nat, first: nat)
    requires !v.JNull? && FirstToAccept(v, arms, k) && !arms[k].TUnion? && Coerce(v, arms[k]).Ok?
    requires var form := AsDict(Coerce(v, arms[k]).value);
             Coerce(form, arms[k]) == Coerce(v, arms[k]) && FirstToAccept(form, arms, first)
    ensures var ty, form := TUnion(arms, optional), AsDict(Coerce(v, arms[k]).value);
            && Coerce(v, ty) == Coerce(v, arms[k]) && first <= k
            && (Coerce(form, ty) == Coerce(v, ty) <==> Coerce(form, arms[first]) == Coerce(v, arms[k]))
  {
    FirstArmDecides(v, arms, k);
    NullOnlyFromNull(v, arms[k]);
    FirstArmDecides(AsDict(Coerce(v, arms[k]).value), arms, first);
  }

  /** An arm that rejected the value also rejects the dict form of what a later arm made of it. */
  lemma RejectedAgain(v: Json, earlier: Type, later: Type)
    requires Coerce(v, earlier).Invalid? && Coerce(v, later).Ok? && !earlier.TUnion?
    requires later.TFloat? || CopiedThrough(later) || Apart(earlier, later)
    requires later.TClass? ==> NamesDistinct(later.fields)
    ensures Coerce(AsDict(Coerce(v, later).value), earlier).Invalid?
  {
    if CopiedThrough(later) {
      CopyIsIdentity(v, later);
    } else if earlier.TClass? && later.TClass? {
      MoreIsMissed(v, earlier.fields, later.fields);
    }
  }

  // ---------- dataclasses by their fields ----------

  /** The dict form of an instance has its fields and nothing else. */
  lemma InstanceForm(v: Json, fields: seq<Field>)
    requires NamesDistinct(fields) && Coerce(v, TClass(fields)).Ok?
    ensures var form := AsDict(Coerce(v, TClass(fields)).value);
            && form.JObject? && form.fields.Keys == FieldNames(fields)
            && forall i :: 0 <= i < |fields| ==>
                 CoerceField(v.fields, fields[i]).Ok? && fields[i].name in form.fields
                 && form.fields[fields[i].name] == AsDict(CoerceField(v.fields, fields[i]).value)
  {
    var outs := CoerceFields(v.fields, fields);
    var vs := AllOf(outs).value;
    AttributesByName(fields, vs);
    var attrs := Attributes(fields, vs);
    var form := AsDict(VInst(attrs));
    assert form.fields.Keys == attrs.Keys;
    forall i | 0 <= i < |fields|
      ensures CoerceField(v.fields, fields[i]).Ok? && fields[i].name in form.fields
      ensures form.fields[fields[i].name] == AsDict(CoerceField(v.fields, fields[i]).value)
    {
      assert outs[i] == Ok(vs[i]) && outs[i] == CoerceField(v.fields, fields[i]);
    }
    forall a ensures a in attrs <==> a in FieldNames(fields) {
      if a in FieldNames(fields) {
        var field :| field in fields && field.name == a;
        var i :| 0 <= i < |fields| && fields[i] == field;
      }
    }
  }

  lemma ClassAccepts(data: map<string, Json>, fields: seq<Field>)
    ensures Coerce(JObject(data), TClass(fields)).Ok? <==>
              forall i :: 0 <= i < |fields| ==> CoerceField(data, fields[i]).Ok?
  {
    var outs := CoerceFields(data, fields);
    assert forall i :: 0 <= i < |fields| ==> outs[i] == CoerceField(data, fields[i]);
  }

  lemma ClassRejects(data: map<string, Json>, fields: seq<Field>, i: nat)
    requires Schema.Supported(TClass(fields)) && i < |fields| && CoerceField(data, fields[i]).Invalid?
    ensures Coerce(JObject(data), TClass(fields)).Invalid?
  {
    ClassAccepts(data, fields);
    Schema.SupportedNeverRaises(JObject(data), TClass(fields));
  }

  lemma MoreIsMissed(v: Json, first: seq<Field>, second: seq<Field>)
    requires Schema.Supported(TClass(first)) && AsksForMore(first, second)
    requires NamesDistinct(second) && Coerce(v, TClass(second)).Ok?
    ensures Coerce(AsDict(Coerce(v, TClass(second)).value), TClass(first)).Invalid?
  {
    InstanceForm(v, second);
    var form := AsDict(Coerce(v, TClass(second)).value);
    var i :| 0 <= i < |first| && first[i].default.None? && first[i].name !in FieldNames(second);
    ClassRejects(form.fields, first, i);
  }

  /** The round trip: parsing the dict form of a parsed value returns that value. */
  lemma {:induction false} ReparseReturnsTheSame(v: Json, ty: Type)
    requires Stable(ty) && Coerce(v, ty).Ok?
    ensures Coerce(AsDict(Coerce(v, ty).value), ty) == Coerce(v, ty)
    decreases ty, 0
  {
    match ty
    case TList(item) => ReparseList(v, item);
    case TDict(value) => ReparseDict(v, value);
    case TClass(fields) => ReparseInstance(v, fields);
    case TUnion(arms, _) =>
      if !v.JNull? {
        var k := SomeArmIsFirst(v, arms);
        FirstArmDecides(v, arms, k);
        ReparseReturnsTheSame(v, arms[k]);
        var form := AsDict(Coerce(v, arms[k]).value);
        forall i | 0 <= i < k ensures Coerce(form, arms[i]).Invalid? {
          RejectedAgain(v, arms[i], arms[k]);
        }
        UnionRoundTripsExactly(v, arms, ty.optional, k, k);
      }
    case _ =>
  }

  lemma {:induction false} ReparseList(v: Json, item: Type)
    requires Stable(item) && Coerce(v, TList(item)).Ok?
    ensures Coerce(AsDict(Coerce(v, TList(item)).value), TList(item)) == Coerce(v, TList(item))
    decreases item, 1
  {
    var outs := CoerceItems(v.items, item);
    var vs := AllOf(outs).value;
    var again := AsDict(VList(vs));
    var outs' := CoerceItems(again.items, item);
    forall i | 0 <= i < |vs| ensures outs'[i] == Ok(vs[i]) {
      assert outs[i] == Ok(vs[i]);
      ReparseReturnsTheSame(v.items[i], item);
    }
    assert AllOf(outs').value == vs;
  }

  lemma {:induction false} ReparseDict(v: Json, value: Type)
    requires Stable(value) && Coerce(v, TDict(value)).Ok?
    ensures Coerce(AsDict(Coerce(v, TDict(value)).value), TDict(value)) == Coerce(v, TDict(value))
    decreases value, 1
  {
    var outs := CoerceEntries(v.fields, value);
    var m := AllEntries(outs).value;
    var again := AsDict(VDict(m));
    var outs' := CoerceEntries(again.fields, value);
    forall k | k in m ensures outs'[k] == Ok(m[k]) {
      assert outs[k] == Ok(m[k]);
      ReparseReturnsTheSame(v.fields[k], value);
    }
    assert AllEntries(outs').value == m;
  }

  lemma {:induction false} ReparseInstance(v: Json, fields: seq<Field>)
    requires Stable(TClass(fields)) && Coerce(v, TClass(fields)).Ok?
    ensures Coerce(AsDict(Coerce(v, TClass(fields)).value), TClass(fields)) == Coerce(v, TClass(fields))
    decreases fields, 1
  {
    var outs := CoerceFields(v.fields, fields);
    var vs := AllOf(outs).value;
    var attrs := Attributes(fields, vs);
    AttributesByName(fields, vs);
    var again := AsDict(VInst(attrs));
    var outs' := CoerceFields(again.fields, fields);
    forall i | 0 <= i < |fields| ensures outs'[i] == Ok(vs[i]) {
      assert outs[i] == Ok(vs[i]);
      assert fields[i].name in attrs && again.fields[fields[i].name] == AsDict(vs[i]);
      assert outs'[i] == CoerceField(again.fields, fields[i]);
      ReparseField(v.fields, fields[i]);
    }
    assert AllOf(outs').value == vs;
  }

  lemma {:induction false} ReparseField(data: map<string, Json>, field: Field)
    requires StableField(field) && CoerceField(data, field).Ok?
    ensures Coerce(AsDict(CoerceField(data, field).value), field.ty) == CoerceField(data, field)
    decreases field, 0
  {
    if field.name in data {
      ReparseReturnsTheSame(data[field.name], field.ty);
    }
  }

  // ---------- two dataclasses in one union ----------

  /** Fields of one name have one type. */
  ghost predicate SameTypes(first: seq<Field>, second: seq<Field>) {
    forall f, g :: f in first && g in second && f.name == g.name ==> f.ty == g.ty
  }

  /** Whatever the second class accepts, the first does: it requires no field that the second can do
      without, and its other fields, of which the second knows nothing, take any value. */
  ghost predicate TakesAll(first: seq<Field>, second: seq<Field>) {
    && !AsksForMore(first, second)
    && (forall f, g :: f in first && g in second && f.name == g.name && f.default.None? ==> g.default.None?)
    && (forall f :: f in first && f.name !in FieldNames(second) ==> Schema.AdmitsEverything(f.ty))
  }

  lemma TakenByFirst(v: Json, first: seq<Field>, second: seq<Field>)
    requires SameTypes(first, second) && TakesAll(first, second) && Coerce(v, TClass(second)).Ok?
    ensures Coerce(v, TClass(first)).Ok?
  {
    ClassAccepts(v.fields, first);
    ClassAccepts(v.fields, second);
    forall i | 0 <= i < |first| ensures CoerceField(v.fields, first[i]).Ok? {
      var f := first[i];
      if f.name in FieldNames(second) {
        var g :| g in second && g.name == f.name;
        var j :| 0 <= j < |second| && second[j] == g;
        assert CoerceField(v.fields, second[j]).Ok?;
      }
    }
  }

  /** What the second class makes, the first accepts too, if it requires nothing the second lacks. */
  lemma FormTakenByFirst(v: Json, first: seq<Field>, second: seq<Field>)
    requires SameTypes(first, second) && !AsksForMore(first, second)
    requires Stable(TClass(second)) && Coerce(v, TClass(second)).Ok?
    ensures Coerce(AsDict(Coerce(v, TClass(second)).value), TClass(first)).Ok?
  {
    InstanceForm(v, second);
    var form := AsDict(Coerce(v, TClass(second)).value).fields;
    ClassAccepts(form, first);
    forall i | 0 <= i < |first| ensures CoerceField(form, first[i]).Ok? {
      var f := first[i];
      if f.name in FieldNames(second) {
        var g :| g in second && g.name == f.name;
        var j :| 0 <= j < |second| && second[j] == g;
        ReparseField(v.fields, second[j]);
      }
    }
  }

  /** A value that the second class accepts and the first does not: one without a field that the first
      requires and the second fills in ... */
  lemma Omitted(w: Json, first: seq<Field>, second: seq<Field>, i: nat, g: Field) returns (v: Json)
    requires Schema.Supported(TClass(first)) && NamesDistinct(second) && Coerce(w, TClass(second)).Ok?
    requires i < |first| && g in second && first[i].name == g.name && first[i].default.None? && g.default.Some?
    ensures Coerce(v, TClass(first)).Invalid? && Coerce(v, TClass(second)).Ok?
  {
    v := JObject(w.fields - {g.name});
    var j :| 0 <= j < |second| && second[j] == g;
    ClassRejects(v.fields, first, i);
    ClassAccepts(w.fields, second);
    ClassAccepts(v.fields, second);
    forall k | 0 <= k < |second| ensures CoerceField(v.fields, second[k]).Ok? {
      assert CoerceField(w.fields, second[k]).Ok?;
    }
  }

  /** ... or one with a wrong value for a field that the second does not know. */
  lemma Unknown(w: Json, first: seq<Field>, second: seq<Field>, i: nat, x: Json) returns (v: Json)
    requires Schema.Supported(TClass(first)) && Coerce(w, TClass(second)).Ok?
    requires i < |first| && first[i].name !in FieldNames(second) && !Coerce(x, first[i].ty).Ok?
    ensures Coerce(v, TClass(first)).Invalid? && Coerce(v, TClass(second)).Ok?
  {
    assert Schema.SupportedField(first[i]);
    Schema.SupportedNeverRaises(x, first[i].ty);
    v := JObject(w.fields[first[i].name := x]);
    ClassRejects(v.fields, first, i);
    ClassAccepts(w.fields, second);
    ClassAccepts(v.fields, second);
    forall k | 0 <= k < |second| ensures CoerceField(v.fields, second[k]).Ok? {
      assert second[k].name in FieldNames(second) && CoerceField(w.fields, second[k]).Ok?;
    }
  }

  lemma OnlySecondTakes(w: Json, first: seq<Field>, second: seq<Field>) returns (v: Json)
    requires Schema.Supported(TClass(first)) && NamesDistinct(second) && Coerce(w, TClass(second)).Ok?
    requires !AsksForMore(first, second) && !TakesAll(first, second)
    ensures Coerce(v, TClass(first)).Invalid? && Coerce(v, TClass(second)).Ok?
  {
    if f, g :| f in first && g in second && f.name == g.name && f.default.None? && g.default.Some? {
      var i :| 0 <= i < |first| && first[i] == f;
      v := Omitted(w, first, second, i, g);
    } else {
      var f :| f in first && f.name !in FieldNames(second) && !Schema.AdmitsEverything(f.ty);
      var i :| 0 <= i < |first| && first[i] == f;
      var x :| !Coerce(x, f.ty).Ok?;
      v := Unknown(w, first, second, i, x);
    }
  }

  /** The arm that takes a value takes its dict form again: an instance comes back as one of its own
      class. */
  ghost predicate ArmStays(v: Json, first: Type, second: Type) {
    && (Coerce(v, first).Ok? ==> Coerce(AsDict(Coerce(v, first).value), first).Ok?)
    && (Coerce(v, first).Invalid? && Coerce(v, second).Ok? ==>
          && Coerce(AsDict(Coerce(v, second).value), first).Invalid?
          && Coerce(AsDict(Coerce(v, second).value), second).Ok?)
  }

  /** In terms of the fields: with two dataclasses in a union, whose common fields agree in type, every
      instance comes back as one of its own class if and only if the first requires a field that the
      second does not have, or leaves nothing for the second to take. */
  lemma TwoClassesExactly(first: seq<Field>, second: seq<Field>, w: Json)
    requires Stable(TClass(first)) && Stable(TClass(second)) && SameTypes(first, second)
    requires Schema.Supported(TClass(first)) && Coerce(w, TClass(second)).Ok?
    ensures (forall v :: ArmStays(v, TClass(first), TClass(second))) <==>
              AsksForMore(first, second) || TakesAll(first, second)
  {
    if AsksForMore(first, second) || TakesAll(first, second) {
      forall v ensures ArmStays(v, TClass(first), TClass(second)) {
        ClassStays(v, first, second);
      }
    } else {
      var v := OnlySecondTakes(w, first, second);
      FormTakenByFirst(v, first, second);
      assert !ArmStays(v, TClass(first), TClass(second));
    }
  }

  lemma ClassStays(v: Json, first: seq<Field>, second: seq<Field>)
    requires Stable(TClass(first)) && Stable(TClass(second)) && SameTypes(first, second)
    requires Schema.Supported(TClass(first)) && (AsksForMore(first, second) || TakesAll(first, second))
    ensures ArmStays(v, TClass(first), TClass(second))
  {
    if Coerce(v, TClass(first)).Ok? {
      ReparseReturnsTheSame(v, TClass(first));
    } else if Coerce(v, TClass(second)).Ok? {
      ReparseReturnsTheSame(v, TClass(second));
      if TakesAll(first, second) {
        TakenByFirst(v, first, second);
      } else {
        MoreIsMissed(v, first, second);
      }
    }
  }

  const STRICT := Field("y", TInt, None)
  const FILLED := Field("y", TInt, Some(VJson(JInt(5))))
  const EXTRA := Field("z", TInt, Some(VJson(JInt(0))))

  lemma SecondArmFillsDefaults() returns (attrs: map<string, Val>)
    ensures Coerce(JObject(map[]), TClass([STRICT])) == Invalid
    ensures Coerce(JObject(map[]), TClass([FILLED, EXTRA])) == Ok(VInst(attrs))
    ensures "y" in attrs && attrs["y"] == VJson(JInt(5)) && "z" in attrs
  {
    var none: map<string, Json> := map[];
    assert CoerceFields(none, [STRICT])[0] == Invalid;
    var vs := [VJson(JInt(5)), VJson(JInt(0))];
    assert CoerceFields(none, [FILLED, EXTRA]) == [Ok(vs[0]), Ok(vs[1])];
    assert AllOf(CoerceFields(none, [FILLED, EXTRA])).value == vs;
    attrs := Attributes([FILLED, EXTRA], vs);
    AttributesByName([FILLED, EXTRA], vs);
    assert [FILLED, EXTRA][0].name in attrs && attrs[[FILLED, EXTRA][0].name] == vs[0];
    assert [FILLED, EXTRA][1].name in attrs;
  }

  lemma FirstArmTakesTheFilled(again: Json) returns (attrs: map<string, Val>)
    requires again.JObject? && "y" in again.fields && again.fields["y"] == JInt(5)
    ensures Coerce(again, TClass([STRICT])) == Ok(VInst(attrs)) && "z" !in attrs
  {
    var parsed := [VJson(JInt(5))];
    assert CoerceFields(again.fields, [STRICT]) == [Ok(parsed[0])];
    assert AllOf(CoerceFields(again.fields, [STRICT])).value == parsed;
    attrs := Attributes([STRICT], parsed);
    AttributesByName([STRICT], parsed);
  }

  /** The condition on unions is needed: with two dataclass arms, the second arm's filled-in default
      can make the dict form match the first arm. */
  lemma ClassUnionDoesNotRoundTrip() returns (v: Json, ty: Type)
    ensures Coerce(v, ty).Ok? && Coerce(AsDict(Coerce(v, ty).value), ty).Ok?
    ensures Coerce(AsDict(Coerce(v, ty).value), ty) != Coerce(v, ty)
  {
    var first, second := TClass([STRICT]), TClass([FILLED, EXTRA]);
    v, ty := JObject(map[]), TUnion([first, second], false);
    var attrs := SecondArmFillsDefaults();
    OneArmLeft(v, first, second);
    var again := AsDict(VInst(attrs));
    assert again == JObject(map k | k in attrs :: AsDict(attrs[k]));
    assert again.fields["y"] == AsDict(VJson(JInt(5))) == JInt(5);
    var attrs' := FirstArmTakesTheFilled(again);
    assert Coerce(again, ty) == CoerceArms(again, [first, second]) == Coerce(again, first);
  }

  lemma OneArmLeft(v: Json, first: Type, second: Type)
    requires Coerce(v, first) == Invalid && Coerce(v, second).Ok?
    ensures CoerceArms(v, [first, second]) == Coerce(v, second)
  {
    assert [first, second][1..] == [second];
  }
}
