/** `nanobar_api/validation.py`: checking a JSON value directly against a Python type. */
module Validation {
  import opened Options
  import opened Json

  /** The field types the checker tells apart. A union keeps its `None` member apart from the other
      arms; `TOther` is any type the checker does not support. */
  datatype Type =
    | TStr | TInt | TFloat | TBool | TAny
    | TList(item: Type)
    | TDict(value: Type)
    | TUnion(arms: seq<Type>, optional: bool)
    | TClass(fields: seq<Field>)
    | TOther

  /** A dataclass field; `default` is the value `cls(**kwargs)` fills in. */
  datatype Field = Field(name: string, ty: Type, default: Option<Val>)

  /** What parsing returns: JSON data as it stands, new lists and dicts, and dataclass instances. */
  datatype Val =
    | VJson(j: Json)
    | VList(items: seq<Val>)
    | VDict(entries: map<string, Val>)
    | VInst(attrs: map<string, Val>)

  /** `Invalid` is a raised ValidationError, `Unsupported` the TypeError for a type not handled. */
  datatype Outcome<+T> = Ok(value: T) | Invalid | Unsupported

  /** What a loop that collects errors makes of its elements' outcomes: a TypeError escapes at once,
      a ValidationError is remembered until the end, and otherwise every value is kept. */
  function AllOf(outs: seq<Outcome<Val>>): (r: Outcome<seq<Val>>)
    ensures r.Ok? <==> forall i :: 0 <= i < |outs| ==> outs[i].Ok?
    ensures r.Ok? ==> |r.value| == |outs| && forall i :: 0 <= i < |outs| ==> outs[i] == Ok(r.value[i])
  {
    if exists i :: 0 <= i < |outs| && outs[i].Unsupported? then Unsupported
    else if exists i :: 0 <= i < |outs| && outs[i].Invalid? then Invalid
    else Ok(seq(|outs|, i requires 0 <= i < |outs| => outs[i].value))
  }

  /** The same for the loop over a dict's items. */
  function AllEntries(outs: map<string, Outcome<Val>>): Outcome<map<string, Val>> {
    if exists k :: k in outs && outs[k].Unsupported? then Unsupported
    else if exists k :: k in outs && outs[k].Invalid? then Invalid
    else Ok(map k | k in outs :: outs[k].value)
  }

  function Wrap<A, B>(x: Outcome<A>, f: A -> B): Outcome<B> {
    match x
    case Ok(value) => Ok(f(value))
    case Invalid => Invalid
    case Unsupported => Unsupported
  }

  /** `cls(**kwargs)`, once no field has failed. */
  function Instance(fields: seq<Field>, values: Outcome<seq<Val>>): Outcome<Val>
    requires values.Ok? ==> |values.value| == |fields|
  {
    match values
    case Ok(vs) => Ok(VInst(Attributes(fields, vs)))
    case Invalid => Invalid
    case Unsupported => Unsupported
  }

  function CoercePrimitive(v: Json, ty: Type): Outcome<Val>
    requires ty.TStr? || ty.TInt? || ty.TFloat? || ty.TBool?
  {
    if ty.TBool? then (if v.JBool? then Ok(VJson(v)) else Invalid)
    else if v.JBool? then Invalid
    else if (ty.TStr? && v.JStr?) || (ty.TInt? && v.JInt?) || (ty.TFloat? && v.JFloat?) then Ok(VJson(v))
    else if ty.TFloat? && v.JInt? then Ok(VJson(JFloat(Finite(v.i as real))))
    else Invalid
  }

  function Coerce(v: Json, ty: Type): Outcome<Val>
    decreases ty, 0, 0
  {
    match ty
    case TUnion(arms, optional) =>
      if v.JNull? then (if optional then Ok(VJson(JNull)) else Invalid) else CoerceArms(v, arms)
    case TList(item) =>
      if !v.JArray? then Invalid else
      Wrap(AllOf(CoerceItems(v.items, item)), vs => VList(vs))
    case TDict(value) =>
      if !v.JObject? then Invalid else
      Wrap(AllEntries(CoerceEntries(v.fields, value)), m => VDict(m))
    case TClass(fields) =>
      if !v.JObject? then Invalid else
      Instance(fields, AllOf(CoerceFields(v.fields, fields)))
    case TAny => Ok(VJson(v))
    case TOther => Unsupported
    case _ => CoercePrimitive(v, ty)
  }

  /** The first arm that accepts wins. */
  function CoerceArms(v: Json, arms: seq<Type>): Outcome<Val>
    decreases arms, 0, 0
  {
    if arms == [] then Invalid
    else
      var first := Coerce(v, arms[0]);
      if first.Invalid? then CoerceArms(v, arms[1..]) else first
  }

  function CoerceItems(items: seq<Json>, item: Type): seq<Outcome<Val>>
    decreases item, 1, 0
  {
    seq(|items|, i requires 0 <= i < |items| => Coerce(items[i], item))
  }

  function CoerceEntries(entries: map<string, Json>, value: Type): map<string, Outcome<Val>>
    decreases value, 1, 0
  {
    map k | k in entries :: Coerce(entries[k], value)
  }

  /** One field: present and coerced, absent with a default, or absent and required. */
  function CoerceField(data: map<string, Json>, field: Field): Outcome<Val>
    decreases field, 0, 0
  {
    if field.name in data then Coerce(data[field.name], field.ty)
    else if field.default.Some? then Ok(field.default.value)
    else Invalid
  }

  function CoerceFields(data: map<string, Json>, fields: seq<Field>): seq<Outcome<Val>>
    decreases fields, 0, 0
  {
    seq(|fields|, i requires 0 <= i < |fields| => CoerceField(data, fields[i]))
  }

  /** The instance's attributes, one per field. */
  function Attributes(fields: seq<Field>, values: seq<Val>): map<string, Val>
    requires |values| == |fields|
  {
    if fields == [] then map[]
    else
      var n := |fields| - 1;
      Attributes(fields[..n], values[..n])[fields[n].name := values[n]]
  }

  ghost predicate NamesDistinct(fields: seq<Field>) {
    forall i, j :: 0 <= i < j < |fields| ==> fields[i].name != fields[j].name
  }

  /** With distinct names each field finds its own value, and there is nothing else. */
  lemma {:induction false} AttributesByName(fields: seq<Field>, values: seq<Val>)
    requires |values| == |fields| && NamesDistinct(fields)
    ensures forall i :: 0 <= i < |fields| ==>
              fields[i].name in Attributes(fields, values) && Attributes(fields, values)[fields[i].name] == values[i]
    ensures forall a :: a in Attributes(fields, values) ==> exists i :: 0 <= i < |fields| && fields[i].name == a
  {
    if fields != [] {
      var n := |fields| - 1;
      AttributesByName(fields[..n], values[..n]);
      forall i | 0 <= i < |fields|
        ensures fields[i].name in Attributes(fields, values) && Attributes(fields, values)[fields[i].name] == values[i]
      {
        if i < n {
          assert fields[..n][i] == fields[i] && values[..n][i] == values[i];
        }
      }
      forall a | a in Attributes(fields, values) ensures exists i :: 0 <= i < |fields| && fields[i].name == a {
        if a != fields[n].name {
          var i :| 0 <= i < n && fields[..n][i].name == a;
          assert fields[i].name == a;
        }
      }
    }
  }

  /** An instance that was accepted has its fields and nothing else, each as it was coerced by itself. */
  lemma InstanceByField(v: Json, fields: seq<Field>)
    requires NamesDistinct(fields) && Coerce(v, TClass(fields)).Ok?
    ensures v.JObject? && Coerce(v, TClass(fields)).value.VInst?
    ensures Coerce(v, TClass(fields)).value.attrs.Keys == set field | field in fields :: field.name
    ensures forall i :: 0 <= i < |fields| ==> fields[i].name in Coerce(v, TClass(fields)).value.attrs
    ensures forall i :: 0 <= i < |fields| ==>
              CoerceField(v.fields, fields[i]) == Ok(Coerce(v, TClass(fields)).value.attrs[fields[i].name])
  {
    var outs := CoerceFields(v.fields, fields);
    var vs := AllOf(outs).value;
    AttributesByName(fields, vs);
    var attrs := Attributes(fields, vs);
    forall i | 0 <= i < |fields| ensures CoerceField(v.fields, fields[i]) == Ok(attrs[fields[i].name]) {
      assert outs[i] == Ok(vs[i]) && outs[i] == CoerceField(v.fields, fields[i]);
    }
    forall a ensures a in attrs.Keys <==> a in set field | field in fields :: field.name {
      if field :| field in fields && field.name == a {
        var i :| 0 <= i < |fields| && fields[i] == field;
      }
    }
  }

  // ---------- the loops of the source ----------

  method CoerceValue(v: Json, ty: Type) returns (r: Outcome<Val>)
    ensures r == Coerce(v, ty)
    decreases ty, 0, 0
  {
    match ty
    case TUnion(arms, optional) =>
      if v.JNull? {
        return if optional then Ok(VJson(JNull)) else Invalid;
      }
      r := TryArms(v, arms);
    case TList(item) =>
      if !v.JArray? {
        return Invalid;
      }
      var vs := CoerceList(v.items, item);
      r := Wrap(vs, x => VList(x));
    case TDict(value) =>
      if !v.JObject? {
        return Invalid;
      }
      var m := CoerceDict(v.fields, value);
      r := Wrap(m, x => VDict(x));
    case TClass(fields) =>
      r := Parse(fields, v);
    case TAny => r := Ok(VJson(v));
    case TOther => r := Unsupported;
    case _ => r := CoercePrimitive(v, ty);
  }

  method TryArms(v: Json, arms: seq<Type>) returns (r: Outcome<Val>)
    ensures r == CoerceArms(v, arms)
    decreases arms, 0, 0
  {
    for i := 0 to |arms|
      invariant CoerceArms(v, arms) == CoerceArms(v, arms[i..])
    {
      var attempt := CoerceValue(v, arms[i]);
      if !attempt.Invalid? {
        return attempt;
      }
    }
    return Invalid;
  }

  method CoerceList(items: seq<Json>, item: Type) returns (r: Outcome<seq<Val>>)
    ensures r == AllOf(CoerceItems(items, item))
    decreases item, 1, |items|
  {
    ghost var outs := CoerceItems(items, item);
    var result, failed := [], false;
    for i := 0 to |items|
      invariant forall j :: 0 <= j < i ==> !outs[j].Unsupported?
      invariant failed <==> exists j :: 0 <= j < i && outs[j].Invalid?
      invariant !failed ==> |result| == i && forall j :: 0 <= j < i ==> result[j] == outs[j].value
    {
      var one := CoerceValue(items[i], item);
      assert outs[i] == one;
      if one.Unsupported? {
        return Unsupported;
      }
      if one.Ok? {
        result := result + [one.value];
      } else {
        failed := true;
      }
    }
    if failed {
      return Invalid;
    }
    assert AllOf(outs).value == result;
    return Ok(result);
  }

  method CoerceDict(entries: map<string, Json>, value: Type) returns (r: Outcome<map<string, Val>>)
    ensures r == AllEntries(CoerceEntries(entries, value))
    decreases value, 1, 1
  {
    ghost var outs := CoerceEntries(entries, value);
    var coerced: map<string, Val>, failed := map[], false;
    var rest := entries.Keys;
    while rest != {}
      invariant rest <= entries.Keys && Collected(outs, entries.Keys - rest, coerced, failed)
      decreases rest
    {
      var k :| k in rest;
      var one := CoerceValue(entries[k], value);
      if one.Unsupported? {
        assert outs[k].Unsupported?;
        return Unsupported;
      }
      CollectedMore(outs, entries.Keys - rest, coerced, failed, k);
      assert entries.Keys - (rest - {k}) == entries.Keys - rest + {k};
      rest := rest - {k};
      if one.Ok? {
        coerced := coerced[k := one.value];
      } else {
        failed := true;
      }
    }
    assert entries.Keys - {} == outs.Keys;
    AllEntriesIs(outs, coerced, failed);
    return if failed then Invalid else Ok(coerced);
  }

  /** What the loop over a dict's items has gathered from the keys seen. */
  ghost predicate Collected(outs: map<string, Outcome<Val>>, seen: set<string>, coerced: map<string, Val>,
                            failed: bool) {
    && seen <= outs.Keys
    && (forall k :: k in seen ==> !outs[k].Unsupported?)
    && (failed <==> exists k :: k in seen && outs[k].Invalid?)
    && (!failed ==> coerced.Keys == seen && forall k :: k in coerced ==> coerced[k] == outs[k].value)
  }

  lemma CollectedMore(outs: map<string, Outcome<Val>>, seen: set<string>, coerced: map<string, Val>, failed: bool,
                      k: string)
    requires Collected(outs, seen, coerced, failed) && k in outs && !outs[k].Unsupported?
    ensures if outs[k].Ok? then Collected(outs, seen + {k}, coerced[k := outs[k].value], failed)
            else Collected(outs, seen + {k}, coerced, true)
  {
  }

  lemma AllEntriesIs(outs: map<string, Outcome<Val>>, coerced: map<string, Val>, failed: bool)
    requires Collected(outs, outs.Keys, coerced, failed)
    ensures AllEntries(outs) == if failed then Invalid else Ok(coerced)
  {
    if !failed {
      assert coerced == map k | k in outs :: outs[k].value;
    }
  }

  /** `parse`: a dataclass from a mapping, all field errors collected before any is raised. */
  method Parse(fields: seq<Field>, data: Json) returns (r: Outcome<Val>)
    ensures r == Coerce(data, TClass(fields))
    decreases fields, 1, 0
  {
    if !data.JObject? {
      return Invalid;
    }
    ghost var outs := CoerceFields(data.fields, fields);
    var kwargs: map<string, Val>, failed := map[], false;
    ghost var values := [];
    for i := 0 to |fields|
      invariant forall j :: 0 <= j < i ==> !outs[j].Unsupported?
      invariant failed <==> exists j :: 0 <= j < i && outs[j].Invalid?
      invariant !failed ==> |values| == i && forall j :: 0 <= j < i ==> values[j] == outs[j].value
      invariant !failed ==> kwargs == Attributes(fields[..i], values)
    {
      var one := ParseField(fields[i], data.fields);
      assert outs[i] == one;
      if one.Unsupported? {
        return Unsupported;
      }
      if one.Ok? {
        kwargs := kwargs[fields[i].name := one.value];
        if !failed {
          assert fields[..i + 1][..i] == fields[..i] && (values + [one.value])[..i] == values;
          values := values + [one.value];
        }
      } else {
        failed := true;
      }
    }
    if failed {
      return Invalid;
    }
    assert fields[..|fields|] == fields;
    assert AllOf(outs).value == values;
    return Ok(VInst(kwargs));
  }

  method ParseField(field: Field, data: map<string, Json>) returns (r: Outcome<Val>)
    ensures r == CoerceField(data, field)
    decreases field, 1, 0
  {
    if field.name !in data {
      return if field.default.None? then Invalid else Ok(field.default.value);
    }
    r := CoerceValue(data[field.name], field.ty);
  }
}
