/** What json_value_equals and json_validate decide (parson.c:1889-2011), in terms that are not their own recursion. */
module Verdicts {
  import opened Bytes
  import opened Json
  import opened ObjectMap
  import opened Compare

  // ----- Equality

  /** A value up to the order of members and the sign of zero. */
  datatype Canon =
    | CanonNull
    | CanonBool(b: bool)
    | CanonNum(value: real)
    | CanonStr(s: CStr)
    | CanonArr(items: seq<Canon>)
    | CanonObj(members: map<CStr, Canon>)

  ghost function Canonical(v: Json): Canon
    requires WellFormed(v)
  {
    match v
    case Null => CanonNull
    case Bool(b) => CanonBool(b)
    case Num(n) => CanonNum(if n.negative then -n.magnitude else n.magnitude)
    case Str(s) => CanonStr(s)
    case Arr(items) => CanonArr(seq(|items|, i requires 0 <= i < |items| => Canonical(items[i])))
    case Obj(ms) => CanonObj(CanonMembers(ms))
  }

  /** The finite map of the members. */
  ghost function CanonMembers(ms: seq<Member>): map<CStr, Canon>
    requires forall i :: 0 <= i < |ms| ==> WellFormed(ms[i].value)
  {
    if ms == [] then map[] else CanonMembers(ms[1..])[ms[0].name := Canonical(ms[0].value)]
  }

  /** Values over separated numbers are equal exactly when they are the same up to the order of members and the sign
      of zero. */
  lemma {:induction false} EqualsIffCanonical(allowed: Number -> bool, a: Json, b: Json)
    requires Separated(allowed) && Comparable(a, allowed) && Comparable(b, allowed)
    ensures Equals(a, b) <==> Canonical(a) == Canonical(b)
    decreases a, 2
  {
    CanonKind(a);
    CanonKind(b);
    match a
    case Arr(items) =>
      hide Canonical;
      if b.Arr? && |items| == |b.items| {
        ArraysIffCanonical(allowed, items, b.items);
      }
    case Obj(ms) =>
      hide Canonical;
      if b.Obj? {
        ObjectsIffCanonical(allowed, ms, b.members);
      }
    case Num(x) =>
      if b.Num? && x.Value() == b.number.Value() {
        assert Near(x, b.number, EPSILON);
      }
    case _ =>
  }

  lemma CanonKind(v: Json)
    requires WellFormed(v)
    ensures v.Arr? <==> Canonical(v).CanonArr?
    ensures v.Arr? ==> |Canonical(v).items| == |v.items|
    ensures v.Obj? <==> Canonical(v).CanonObj?
  {
  }

  lemma {:induction false} ArraysIffCanonical(allowed: Number -> bool, xs: seq<Json>, ys: seq<Json>)
    requires Separated(allowed) && Comparable(Arr(xs), allowed) && Comparable(Arr(ys), allowed) && |xs| == |ys|
    ensures Equals(Arr(xs), Arr(ys)) <==> Canonical(Arr(xs)) == Canonical(Arr(ys))
    decreases xs, 0
  {
    forall i | 0 <= i < |xs| ensures Equals(xs[i], ys[i]) <==> Canonical(xs[i]) == Canonical(ys[i]) {
      EqualsIffCanonical(allowed, xs[i], ys[i]);
    }
    var l, r := Canonical(Arr(xs)).items, Canonical(Arr(ys)).items;
    assert forall i :: 0 <= i < |xs| ==> l[i] == Canonical(xs[i]) && r[i] == Canonical(ys[i]);
    assert Equals(Arr(xs), Arr(ys)) <==> forall i :: 0 <= i < |xs| ==> Equals(xs[i], ys[i]);
  }

  lemma {:induction false} CanonMember(ms: seq<Member>, i: nat)
    requires DistinctNames(ms) && (forall j :: 0 <= j < |ms| ==> WellFormed(ms[j].value)) && i < |ms|
    ensures ms[i].name in CanonMembers(ms) && CanonMembers(ms)[ms[i].name] == Canonical(ms[i].value)
  {
    hide Canonical, WellFormed;
    if i > 0 {
      CanonMember(ms[1..], i - 1);
    }
  }

  lemma {:induction false} CanonKeys(ms: seq<Member>)
    requires forall j :: 0 <= j < |ms| ==> WellFormed(ms[j].value)
    ensures forall name :: name in CanonMembers(ms) <==> HasName(ms, name)
  {
    hide Canonical, WellFormed;
    if ms != [] {
      CanonKeys(ms[1..]);
      forall name ensures HasName(ms, name) <==> ms[0].name == name || HasName(ms[1..], name) {
        if HasName(ms, name) {
          var i :| 0 <= i < |ms| && ms[i].name == name;
          assert i > 0 ==> ms[1..][i - 1].name == name;
        }
      }
    }
  }

  lemma MapKeys(ms: seq<Member>)
    requires DistinctNames(ms)
    ensures forall name :: name in ToMap(ms) <==> HasName(ms, name)
  {
  }

  lemma MapsIff(l: map<CStr, Json>, r: map<CStr, Json>, cl: map<CStr, Canon>, cr: map<CStr, Canon>)
    requires l.Keys == cl.Keys && r.Keys == cr.Keys
    requires forall name :: name in l && name in r ==>
               (EqualsWithin(l[name], r[name], EPSILON) <==> cl[name] == cr[name])
    ensures MapsEqual(l, r, EPSILON) <==> cl == cr
  {
    hide EqualsWithin;
  }

  lemma {:induction false} MemberIffCanonical(allowed: Number -> bool, xs: seq<Member>, ys: seq<Member>, name: CStr)
    requires Separated(allowed) && Comparable(Obj(xs), allowed) && Comparable(Obj(ys), allowed)
    requires name in ToMap(xs) && name in ToMap(ys) && name in CanonMembers(xs) && name in CanonMembers(ys)
    ensures EqualsWithin(ToMap(xs)[name], ToMap(ys)[name], EPSILON) <==>
            CanonMembers(xs)[name] == CanonMembers(ys)[name]
    decreases xs, 0
  {
    hide Separated, EqualsWithin;
    var i := MapIndex(xs, name);
    var j := MapIndex(ys, name);
    CanonMember(xs, i);
    CanonMember(ys, j);
    EqualsIffCanonical(allowed, xs[i].value, ys[j].value);
  }

  lemma {:induction false} ObjectsIffCanonical(allowed: Number -> bool, xs: seq<Member>, ys: seq<Member>)
    requires Separated(allowed) && Comparable(Obj(xs), allowed) && Comparable(Obj(ys), allowed)
    ensures Equals(Obj(xs), Obj(ys)) <==> Canonical(Obj(xs)) == Canonical(Obj(ys))
    decreases xs, 1
  {
    CanonKeys(xs);
    CanonKeys(ys);
    MapKeys(xs);
    MapKeys(ys);
    ObjectsEqual(xs, ys, EPSILON);
    assert Canonical(Obj(xs)) == CanonObj(CanonMembers(xs)) && Canonical(Obj(ys)) == CanonObj(CanonMembers(ys));
    hide Separated, Canonical, CanonMembers, EqualsWithin, ToMap, HasName, MapsEqual;
    forall name | name in ToMap(xs) && name in ToMap(ys)
      ensures EqualsWithin(ToMap(xs)[name], ToMap(ys)[name], EPSILON) <==>
              CanonMembers(xs)[name] == CanonMembers(ys)[name]
    {
      MemberIffCanonical(allowed, xs, ys, name);
    }
    MapsIff(ToMap(xs), ToMap(ys), CanonMembers(xs), CanonMembers(ys));
  }

  // ----- Validation

  datatype JsonType = NullType | BooleanType | NumberType | StringType | ArrayType | ObjectType

  function TypeOf(v: Json): JsonType {
    match v
    case Null => NullType
    case Bool(_) => BooleanType
    case Num(_) => NumberType
    case Str(_) => StringType
    case Arr(_) => ArrayType
    case Obj(_) => ObjectType
  }

  /** A step into a value: to a field, or to an item. */
  datatype Step = Field(name: CStr) | Index(i: nat)

  /** The part of a value at a place. */
  function At(v: Json, path: seq<Step>): Option<Json> {
    if path == [] then Some(v)
    else
      match path[0]
      case Field(name) =>
        if !v.Obj? then None
        else (match Lookup(v.members, name) case None => None case Some(w) => At(w, path[1..]))
      case Index(i) => if v.Arr? && i < |v.items| then At(v.items[i], path[1..]) else None
  }

  /** The part of a schema that speaks of that place: of an array it is the first item. */
  function SchemaAt(s: Json, path: seq<Step>): Option<Json> {
    if path == [] then Some(s)
    else
      match path[0]
      case Field(name) =>
        if !s.Obj? then None
        else (match Lookup(s.members, name) case None => None case Some(w) => SchemaAt(w, path[1..]))
      case Index(_) => if s.Arr? && s.items != [] then SchemaAt(s.items[0], path[1..]) else None
  }

  /** The value has the wrong type, or an object lacks a name of the schema; null in the schema stands for anything. */
  ghost predicate ClashHere(s: Json, v: Json) {
    || (!s.Null? && TypeOf(s) != TypeOf(v))
    || (s.Obj? && v.Obj? && exists name :: HasName(s.members, name) && !HasName(v.members, name))
  }

  ghost predicate Clash(schema: Json, value: Json, path: seq<Step>) {
    && SchemaAt(schema, path).Some? && At(value, path).Some?
    && ClashHere(SchemaAt(schema, path).value, At(value, path).value)
  }

  lemma {:induction false} ClashIsRefused(schema: Json, value: Json, path: seq<Step>)
    requires Clash(schema, value, path)
    ensures !ValidateWith(schema, value, false)
    decreases |path|
  {
    hide Lookup;
    if path == [] {
      HereIsRefused(schema, value);
    } else if path[0].Field? {
      var name := path[0].name;
      var s, v := Lookup(schema.members, name).value, Lookup(value.members, name).value;
      ClashIsRefused(s, v, path[1..]);
      FieldIsRefused(schema.members, value.members, name);
    } else {
      ClashIsRefused(schema.items[0], value.items[path[0].i], path[1..]);
    }
  }

  lemma HereIsRefused(s: Json, v: Json)
    requires ClashHere(s, v)
    ensures !ValidateWith(s, v, false)
  {
    if s.Obj? && v.Obj? {
      var name :| HasName(s.members, name) && !HasName(v.members, name);
      var i :| 0 <= i < |s.members| && s.members[i].name == name;
      LookupNone(v.members, name);
    }
  }

  lemma FieldIsRefused(ms: seq<Member>, vs: seq<Member>, name: CStr)
    requires Lookup(ms, name).Some? && Lookup(vs, name).Some?
    requires !ValidateWith(Lookup(ms, name).value, Lookup(vs, name).value, false)
    ensures !ValidateWith(Obj(ms), Obj(vs), false)
  {
    LookupNone(ms, name);
    var i :| 0 <= i < |ms| && ms[i].name == name;
    ValueNamedIsLookup(ms, i);
    hide Lookup;
    assert Lookup(vs, ms[i].name).Some?;
  }

  lemma {:induction false} RefusedHasClash(schema: Json, value: Json) returns (path: seq<Step>)
    requires !ValidateWith(schema, value, false)
    ensures Clash(schema, value, path)
    decreases schema
  {
    hide Lookup, HasName;
    if !schema.Null? && TypeOf(schema) != TypeOf(value) {
      path := [];
    } else if schema.Arr? {
      var i :| 0 <= i < |value.items| && !ValidateWith(schema.items[0], value.items[i], false);
      var more := RefusedHasClash(schema.items[0], value.items[i]);
      path := [Index(i)] + more;
      assert path[1..] == more;
    } else {
      var ms := schema.members;
      var i :| 0 <= i < |ms| && (Lookup(value.members, ms[i].name).None?
                                 || !ValidateWith(ValueNamed(ms, i), Lookup(value.members, ms[i].name).value, false));
      var name := ms[i].name;
      ValueNamedIsLookup(ms, i);
      LookupNone(value.members, name);
      LookupNone(ms, name);
      if Lookup(value.members, name).None? {
        path := [];
      } else {
        var more := RefusedHasClash(ValueNamed(ms, i), Lookup(value.members, name).value);
        path := [Field(name)] + more;
        assert path[1..] == more;
      }
    }
  }

  /** json_validate refuses a value exactly when it clashes with the schema at some place. */
  lemma RefusedIff(schema: Json, value: Json)
    requires WellFormed(schema)
    ensures !Validate(schema, value) <==> exists path :: Clash(schema, value, path)
  {
    hide ValidateWith, Clash;
    CountNeverMatters(schema, value);
    if !ValidateWith(schema, value, false) {
      var path := RefusedHasClash(schema, value);
    }
    if path :| Clash(schema, value, path) {
      ClashIsRefused(schema, value, path);
    }
  }
}
