/** json_value_equals, json_value_deep_copy and json_validate (parson.c:1401-1478, 1889-2011). */
module Compare {
  import opened Bytes
  import opened Json
  import opened ObjectMap
  import opened Sets

  // ----- json_value_equals

  /** The tolerance: the double nearest to 0.000001, which is a little less. */
  const EPSILON: real := 4722366482869645.0 / 4722366482869645213696.0

  /** A 53-bit multiple of 2^-72, no further from 0.000001 than half of that. */
  lemma EpsilonIsNearest() returns (m: int)
    ensures 0x10_0000_0000_0000 <= m < 0x20_0000_0000_0000 && EPSILON * 4722366482869645213696.0 == m as real
    ensures -1.0 <= (EPSILON - 0.000001) * 9444732965739290427392.0 <= 1.0
  {
    m := 4722366482869645;
  }

  /** `fabs(x - y) < tolerance`. */
  predicate Near(x: Number, y: Number, tolerance: real) {
    -tolerance < x.Value() - y.Value() < tolerance
  }

  /** json_value_equals with the tolerance of its number comparison as a parameter. */
  predicate EqualsWithin(a: Json, b: Json, tolerance: real)
    decreases a
  {
    match a
    case Arr(items) =>
      && b.Arr? && |items| == |b.items|
      && forall i :: 0 <= i < |items| ==> EqualsWithin(items[i], b.items[i], tolerance)
    case Obj(ms) =>
      && b.Obj? && |ms| == |b.members|
      && forall i :: 0 <= i < |ms| ==>
           var other := Lookup(b.members, ms[i].name);
           other.Some? && EqualsWithin(ValueNamed(ms, i), other.value, tolerance)
    case Str(s) => b == Str(s)
    case Bool(x) => b == Bool(x)
    case Num(n) => b.Num? && Near(n, b.number, tolerance)
    case Null => b.Null?
  }

  /** json_value_equals. */
  predicate Equals(a: Json, b: Json) {
    EqualsWithin(a, b, EPSILON)
  }

  lemma {:induction false} WithinReflexive(a: Json, tolerance: real)
    requires tolerance > 0.0
    ensures EqualsWithin(a, a, tolerance)
    decreases a
  {
    hide Lookup;
    match a
    case Arr(items) =>
      forall i | 0 <= i < |items| ensures EqualsWithin(items[i], items[i], tolerance) {
        WithinReflexive(items[i], tolerance);
      }
    case Obj(ms) =>
      forall i | 0 <= i < |ms| ensures EqualsWithin(ValueNamed(ms, i), ValueNamed(ms, i), tolerance) {
        WithinReflexive(ValueNamed(ms, i), tolerance);
      }
      forall i | 0 <= i < |ms| ensures Lookup(ms, ms[i].name) == Some(ValueNamed(ms, i)) {
        ValueNamedIsLookup(ms, i);
      }
    case _ =>
  }

  lemma ValueNamedIsLookup(ms: seq<Member>, i: nat)
    requires i < |ms|
    ensures Lookup(ms, ms[i].name) == Some(ValueNamed(ms, i))
    ensures DistinctNames(ms) ==> ValueNamed(ms, i) == ms[i].value
  {
    LookupNone(ms, ms[i].name);
    if DistinctNames(ms) {
      LookupAt(ms, i);
    }
  }

  // ----- Counting names

  ghost function Names(ms: seq<Member>): set<CStr> {
    set i | 0 <= i < |ms| :: ms[i].name
  }

  lemma {:induction false} NamesCount(ms: seq<Member>)
    ensures |Names(ms)| <= |ms|
    ensures DistinctNames(ms) ==> |Names(ms)| == |ms|
  {
    if ms == [] {
      assert Names(ms) == {};
    } else {
      var front, m := ms[..|ms| - 1], ms[|ms| - 1];
      NamesCount(front);
      assert Names(ms) == Names(front) + {m.name} by {
        assert forall i :: 0 <= i < |front| ==> front[i] == ms[i];
      }
    }
  }

  lemma NameFound(ms: seq<Member>, name: CStr)
    ensures Lookup(ms, name).Some? <==> name in Names(ms)
  {
    LookupNone(ms, name);
  }

  /** Pigeonhole: distinct names, all found in an object with no more members, are all of that object's names. */
  lemma SameNames(xs: seq<Member>, ys: seq<Member>)
    requires DistinctNames(xs) && |xs| == |ys|
    requires forall i :: 0 <= i < |xs| ==> Lookup(ys, xs[i].name).Some?
    ensures Names(xs) == Names(ys)
  {
    forall i | 0 <= i < |xs| ensures xs[i].name in Names(ys) {
      NameFound(ys, xs[i].name);
    }
    NamesCount(xs);
    NamesCount(ys);
    SubsetSize(Names(xs), Names(ys));
  }

  /** The same names, and equal values under each of them. */
  ghost predicate MapsEqual(l: map<CStr, Json>, r: map<CStr, Json>, tolerance: real) {
    && l.Keys == r.Keys
    && forall name :: name in l ==> EqualsWithin(l[name], r[name], tolerance)
  }

  lemma KeysAreNames(ms: seq<Member>)
    requires DistinctNames(ms)
    ensures ToMap(ms).Keys == Names(ms) && |Names(ms)| == |ms|
  {
    NamesCount(ms);
  }

  lemma NamedInMap(ms: seq<Member>, i: nat)
    requires DistinctNames(ms) && i < |ms|
    ensures ms[i].name in ToMap(ms) && ToMap(ms)[ms[i].name] == ValueNamed(ms, i)
  {
    hide Lookup, ToMap;
    ValueNamedIsLookup(ms, i);
    LookupIsMap(ms, ms[i].name);
  }

  /** For well-formed objects equality is equality of the maps they stand for: order does not matter. */
  lemma ObjectsEqual(xs: seq<Member>, ys: seq<Member>, tolerance: real)
    requires DistinctNames(xs) && DistinctNames(ys)
    ensures EqualsWithin(Obj(xs), Obj(ys), tolerance) <==> MapsEqual(ToMap(xs), ToMap(ys), tolerance)
  {
    hide Lookup, EqualsWithin, ToMap, ValueNamed, Names, DistinctNames;
    var l, r := ToMap(xs), ToMap(ys);
    KeysAreNames(xs);
    KeysAreNames(ys);
    EqualsUnfold(xs, ys, tolerance);
    if EqualsWithin(Obj(xs), Obj(ys), tolerance) {
      SameNames(xs, ys);
      forall name | name in l ensures EqualsWithin(l[name], r[name], tolerance) {
        var i := MapIndex(xs, name);
        NamedInMap(xs, i);
        LookupIsMap(ys, name);
      }
    }
    if MapsEqual(l, r, tolerance) {
      forall i | 0 <= i < |xs|
        ensures Lookup(ys, xs[i].name).Some? && EqualsWithin(ValueNamed(xs, i), Lookup(ys, xs[i].name).value, tolerance)
      {
        NamedInMap(xs, i);
        LookupIsMap(ys, xs[i].name);
      }
    }
  }

  lemma EqualsUnfold(xs: seq<Member>, ys: seq<Member>, tolerance: real)
    ensures EqualsWithin(Obj(xs), Obj(ys), tolerance) <==>
            && |xs| == |ys|
            && forall i :: 0 <= i < |xs| ==>
                 && Lookup(ys, xs[i].name).Some?
                 && EqualsWithin(ValueNamed(xs, i), Lookup(ys, xs[i].name).value, tolerance)
  {
    hide Lookup;
  }

  lemma {:induction false} WithinSymmetric(a: Json, b: Json, tolerance: real)
    requires WellFormed(a) && WellFormed(b) && EqualsWithin(a, b, tolerance)
    ensures EqualsWithin(b, a, tolerance)
    decreases a, 1
  {
    match a
    case Arr(items) =>
      forall i | 0 <= i < |items| ensures EqualsWithin(b.items[i], items[i], tolerance) {
        WithinSymmetric(items[i], b.items[i], tolerance);
      }
    case Obj(ms) => ObjectsSymmetric(ms, b.members, tolerance);
    case _ =>
  }

  lemma {:induction false} ObjectsSymmetric(xs: seq<Member>, ys: seq<Member>, tolerance: real)
    requires WellFormed(Obj(xs)) && WellFormed(Obj(ys)) && EqualsWithin(Obj(xs), Obj(ys), tolerance)
    ensures EqualsWithin(Obj(ys), Obj(xs), tolerance)
    decreases Obj(xs), 0
  {
    hide EqualsWithin, ToMap;
    ObjectsEqual(xs, ys, tolerance);
    ObjectsEqual(ys, xs, tolerance);
    var l, r := ToMap(xs), ToMap(ys);
    forall name | name in r ensures EqualsWithin(r[name], l[name], tolerance) {
      var i := MapIndex(xs, name);
      var j := MapIndex(ys, name);
      WithinSymmetric(xs[i].value, ys[j].value, tolerance);
    }
  }

  lemma MapIndex(ms: seq<Member>, name: CStr) returns (i: nat)
    requires DistinctNames(ms) && name in ToMap(ms)
    ensures i < |ms| && ms[i].name == name && ToMap(ms)[name] == ms[i].value
  {
    i :| 0 <= i < |ms| && ms[i].name == name;
    MapAt(ms, i);
  }

  /** Tolerances add up along a chain of equalities. */
  lemma {:induction false} WithinTriangle(a: Json, b: Json, c: Json, s: real, t: real)
    requires WellFormed(a) && WellFormed(b) && WellFormed(c)
    requires EqualsWithin(a, b, s) && EqualsWithin(b, c, t)
    ensures EqualsWithin(a, c, s + t)
    decreases a, 1
  {
    match a
    case Arr(items) =>
      forall i | 0 <= i < |items| ensures EqualsWithin(items[i], c.items[i], s + t) {
        WithinTriangle(items[i], b.items[i], c.items[i], s, t);
      }
    case Obj(ms) => ObjectsTriangle(ms, b.members, c.members, s, t);
    case _ =>
  }

  lemma {:induction false} ObjectsTriangle(xs: seq<Member>, ys: seq<Member>, zs: seq<Member>, s: real, t: real)
    requires WellFormed(Obj(xs)) && WellFormed(Obj(ys)) && WellFormed(Obj(zs))
    requires EqualsWithin(Obj(xs), Obj(ys), s) && EqualsWithin(Obj(ys), Obj(zs), t)
    ensures EqualsWithin(Obj(xs), Obj(zs), s + t)
    decreases Obj(xs), 0
  {
    hide EqualsWithin, ToMap;
    ObjectsEqual(xs, ys, s);
    ObjectsEqual(ys, zs, t);
    ObjectsEqual(xs, zs, s + t);
    var l, r := ToMap(xs), ToMap(zs);
    forall name | name in l ensures EqualsWithin(l[name], r[name], s + t) {
      var i := MapIndex(xs, name);
      var j := MapIndex(ys, name);
      var k := MapIndex(zs, name);
      WithinTriangle(xs[i].value, ys[j].value, zs[k].value, s, t);
    }
  }

  /** json_value_equals holds of a value and itself, and holds both ways round. */
  lemma EqualsReflexiveSymmetric(a: Json, b: Json)
    requires WellFormed(a) && WellFormed(b)
    ensures Equals(a, a)
    ensures Equals(a, b) <==> Equals(b, a)
  {
    hide EqualsWithin;
    WithinReflexive(a, EPSILON);
    if Equals(a, b) {
      WithinSymmetric(a, b, EPSILON);
    }
    if Equals(b, a) {
      WithinSymmetric(b, a, EPSILON);
    }
  }

  /** Because of the tolerance it is not transitive on every tree: three doubles whose differences are exact. */
  lemma NotTransitive()
    ensures var x, y := Num(Number(false, 0.0)), Num(Number(false, 1.0 / 1048576.0));
            var z := Num(Number(false, 1.0 / 524288.0));
            Equals(x, y) && Equals(y, z) && !Equals(x, z)
  {
  }

  ghost predicate NumbersFrom(v: Json, allowed: Number -> bool) {
    match v
    case Num(n) => allowed(n)
    case Arr(items) => forall i :: 0 <= i < |items| ==> NumbersFrom(items[i], allowed)
    case Obj(ms) => forall i :: 0 <= i < |ms| ==> NumbersFrom(ms[i].value, allowed)
    case _ => true
  }

  /** Nearness is transitive on the allowed numbers. */
  ghost predicate NearTransitive(allowed: Number -> bool) {
    forall x, y, z | allowed(x) && allowed(y) && allowed(z) && Near(x, y, EPSILON) && Near(y, z, EPSILON) ::
      Near(x, z, EPSILON)
  }

  ghost predicate Comparable(v: Json, allowed: Number -> bool) {
    WellFormed(v) && NumbersFrom(v, allowed)
  }

  lemma {:induction false} EqualsTransitive(a: Json, b: Json, c: Json, allowed: Number -> bool)
    requires NearTransitive(allowed) && Comparable(a, allowed) && Comparable(b, allowed) && Comparable(c, allowed)
    requires EqualsWithin(a, b, EPSILON) && EqualsWithin(b, c, EPSILON)
    ensures EqualsWithin(a, c, EPSILON)
    decreases a, 1
  {
    match a
    case Arr(items) =>
      forall i | 0 <= i < |items| ensures EqualsWithin(items[i], c.items[i], EPSILON) {
        EqualsTransitive(items[i], b.items[i], c.items[i], allowed);
      }
    case Obj(ms) => ObjectsTransitive(ms, b.members, c.members, allowed);
    case _ =>
  }

  lemma {:induction false} ObjectsTransitive(xs: seq<Member>, ys: seq<Member>, zs: seq<Member>, allowed: Number -> bool)
    requires NearTransitive(allowed)
    requires Comparable(Obj(xs), allowed) && Comparable(Obj(ys), allowed) && Comparable(Obj(zs), allowed)
    requires EqualsWithin(Obj(xs), Obj(ys), EPSILON) && EqualsWithin(Obj(ys), Obj(zs), EPSILON)
    ensures EqualsWithin(Obj(xs), Obj(zs), EPSILON)
    decreases Obj(xs), 0
  {
    hide EqualsWithin, ToMap, NearTransitive;
    ObjectsEqual(xs, ys, EPSILON);
    ObjectsEqual(ys, zs, EPSILON);
    ObjectsEqual(xs, zs, EPSILON);
    var l, r := ToMap(xs), ToMap(zs);
    forall name | name in l ensures EqualsWithin(l[name], r[name], EPSILON) {
      var i := MapIndex(xs, name);
      var j := MapIndex(ys, name);
      var k := MapIndex(zs, name);
      EqualsTransitive(xs[i].value, ys[j].value, zs[k].value, allowed);
    }
  }

  /** Exactly when json_value_equals is transitive on trees over a set of numbers: when nearness is, on that set. */
  lemma TransitiveIff(allowed: Number -> bool)
    ensures NearTransitive(allowed) <==>
            forall a, b, c | Comparable(a, allowed) && Comparable(b, allowed) && Comparable(c, allowed)
                             && Equals(a, b) && Equals(b, c) ::
              Equals(a, c)
  {
    if NearTransitive(allowed) {
      forall a, b, c | Comparable(a, allowed) && Comparable(b, allowed) && Comparable(c, allowed)
                       && Equals(a, b) && Equals(b, c)
        ensures Equals(a, c)
      {
        EqualsTransitive(a, b, c, allowed);
      }
    } else {
      var x, y, z :| allowed(x) && allowed(y) && allowed(z) && Near(x, y, EPSILON) && Near(y, z, EPSILON)
                     && !Near(x, z, EPSILON);
      assert Comparable(Num(x), allowed) && Comparable(Num(y), allowed) && Comparable(Num(z), allowed);
      assert Equals(Num(x), Num(y)) && Equals(Num(y), Num(z)) && !Equals(Num(x), Num(z));
    }
  }

  /** Any two of the allowed numbers are the same or at least the tolerance apart. */
  ghost predicate Separated(allowed: Number -> bool) {
    forall x, y | allowed(x) && allowed(y) && Near(x, y, EPSILON) :: x.Value() == y.Value()
  }

  /** Over separated numbers json_value_equals is an equivalence. */
  lemma EqualsEquivalence(allowed: Number -> bool, a: Json, b: Json, c: Json)
    requires Separated(allowed) && Comparable(a, allowed) && Comparable(b, allowed) && Comparable(c, allowed)
    ensures Equals(a, a) && (Equals(a, b) <==> Equals(b, a))
    ensures Equals(a, b) && Equals(b, c) ==> Equals(a, c)
  {
    hide EqualsWithin, WellFormed, NumbersFrom;
    EqualsReflexiveSymmetric(a, b);
    SeparatedIsTransitive(allowed);
    if Equals(a, b) && Equals(b, c) {
      EqualsTransitive(a, b, c, allowed);
    }
  }

  lemma SeparatedIsTransitive(allowed: Number -> bool)
    requires Separated(allowed)
    ensures NearTransitive(allowed)
  {
  }

  predicate IsMultiple(n: Number, step: real)
    requires step > 0.0
  {
    n.magnitude == (n.magnitude / step).Floor as real * step
  }

  /** The multiples of any step from the tolerance on are separated. */
  lemma MultiplesSeparated(step: real)
    requires step >= EPSILON
    ensures Separated(n => IsMultiple(n, step))
  {
    forall x, y | IsMultiple(x, step) && IsMultiple(y, step) && Near(x, y, EPSILON)
      ensures x.Value() == y.Value()
    {
      NearMultiples(x, y, step);
    }
  }

  lemma NearMultiples(x: Number, y: Number, step: real)
    requires step >= EPSILON && IsMultiple(x, step) && IsMultiple(y, step) && Near(x, y, EPSILON)
    ensures x.Value() == y.Value()
  {
    hide IsMultiple, Number.Value;
    var i := Quotient(x, step);
    var j := Quotient(y, step);
    if i > j {
      Apart(i, j, step, x.Value(), y.Value());
    } else if j > i {
      Apart(j, i, step, y.Value(), x.Value());
    }
  }

  lemma Quotient(n: Number, step: real) returns (k: int)
    requires step > 0.0 && IsMultiple(n, step)
    ensures n.Value() == k as real * step
  {
    var q := (n.magnitude / step).Floor;
    k := if n.negative then -q else q;
  }

  /** Different multiples are at least the step apart. */
  lemma Apart(i: int, j: int, step: real, a: real, b: real)
    requires step > 0.0 && i > j && a == i as real * step && b == j as real * step
    ensures a - b >= step
  {
    var d := i as real - j as real;
    assert d >= 1.0;
    assert a - b == d * step >= 1.0 * step;
  }

  predicate IsInteger(n: Number) {
    IsMultiple(n, 1.0)
  }

  lemma IntegersNearTransitive()
    ensures NearTransitive(IsInteger)
  {
    forall x, y | IsInteger(x) && IsInteger(y) && Near(x, y, EPSILON) ensures x.Value() == y.Value() {
      NearMultiples(x, y, 1.0);
    }
  }

  /** Trees of multiples of a step from the tolerance on, integers among them, are compared by an equivalence. */
  lemma MultiplesEquivalence(step: real, a: Json, b: Json, c: Json)
    requires step >= EPSILON
    requires var allowed := (n: Number) => IsMultiple(n, step);
             Comparable(a, allowed) && Comparable(b, allowed) && Comparable(c, allowed)
    ensures Equals(a, a) && (Equals(a, b) <==> Equals(b, a))
    ensures Equals(a, b) && Equals(b, c) ==> Equals(a, c)
  {
    MultiplesSeparated(step);
    EqualsEquivalence(n => IsMultiple(n, step), a, b, c);
  }

  lemma IntegersEquivalence(a: Json, b: Json, c: Json)
    requires Comparable(a, IsInteger) && Comparable(b, IsInteger) && Comparable(c, IsInteger)
    ensures Equals(a, a) && (Equals(a, b) <==> Equals(b, a))
    ensures Equals(a, b) && Equals(b, c) ==> Equals(a, c)
  {
    hide EqualsWithin, WellFormed, NumbersFrom;
    IntegersNearTransitive();
    EqualsReflexiveSymmetric(a, b);
    if Equals(a, b) && Equals(b, c) {
      EqualsTransitive(a, b, c, IsInteger);
    }
  }

  // ----- json_value_deep_copy

  function DeepCopy(v: Json): Option<Json>
    decreases v, 0
  {
    match v
    case Arr(items) => CopyItems(items, 0, [])
    case Obj(ms) => CopyMembers(ms, 0, [])
    case _ => Some(v)
  }

  /** The array loop, with the copies made so far. */
  function CopyItems(items: seq<Json>, i: nat, acc: seq<Json>): Option<Json>
    requires i <= |items|
    decreases items, |items| - i
  {
    if i == |items| then Some(Arr(acc))
    else
      match DeepCopy(items[i])
      case None => None
      case Some(copy) => CopyItems(items, i + 1, acc + [copy])
  }

  /** The object loop: each value is looked up by name, and a repeated name makes json_object_add fail. */
  function CopyMembers(ms: seq<Member>, i: nat, acc: seq<Member>): Option<Json>
    requires i <= |ms|
    decreases ms, |ms| - i
  {
    if i == |ms| then Some(Obj(acc))
    else
      match DeepCopy(ValueNamed(ms, i))
      case None => None
      case Some(copy) =>
        match AddMember(acc, Member(ms[i].name, copy))
        case None => None
        case Some(after) => CopyMembers(ms, i + 1, after)
  }

  /** A deep copy is made exactly of well-formed values, and is the same tree. */
  lemma {:induction false} DeepCopyIsCopy(v: Json)
    ensures DeepCopy(v) == if WellFormed(v) then Some(v) else None
    decreases v, 0
  {
    match v
    case Arr(items) => CopyItemsIsCopy(items, 0);
    case Obj(ms) => CopyMembersIsCopy(ms, 0);
    case _ =>
  }

  lemma {:induction false} CopyItemsIsCopy(items: seq<Json>, i: nat)
    requires i <= |items| && forall j :: 0 <= j < i ==> WellFormed(items[j])
    ensures CopyItems(items, i, items[..i]) == if WellFormed(Arr(items)) then Some(Arr(items)) else None
    decreases items, |items| - i
  {
    hide DeepCopy;
    if i == |items| {
      assert items[..i] == items;
    } else {
      DeepCopyIsCopy(items[i]);
      assert items[..i] + [items[i]] == items[..i + 1];
      if WellFormed(items[i]) {
        CopyItemsIsCopy(items, i + 1);
      }
    }
  }

  lemma {:induction false} CopyMembersIsCopy(ms: seq<Member>, i: nat)
    requires i <= |ms| && DistinctNames(ms[..i]) && forall j :: 0 <= j < i ==> WellFormed(ms[j].value)
    ensures CopyMembers(ms, i, ms[..i]) == if WellFormed(Obj(ms)) then Some(Obj(ms)) else None
    decreases ms, |ms| - i
  {
    hide DeepCopy, Lookup;
    if i == |ms| {
      assert ms[..i] == ms;
    } else {
      var v := ValueNamed(ms, i);
      DeepCopyIsCopy(v);
      LookupNone(ms[..i], ms[i].name);
      if HasName(ms[..i], ms[i].name) {
        var j :| 0 <= j < i && ms[..i][j].name == ms[i].name;
        assert ms[j].name == ms[i].name && !DistinctNames(ms);
      } else {
        assert forall j :: 0 <= j < i ==> ms[..i][j] == ms[j];
        FirstOfItsName(ms, i);
        assert ms[..i] + [ms[i]] == ms[..i + 1];
        if WellFormed(v) {
          CopyMembersIsCopy(ms, i + 1);
        }
      }
    }
  }

  lemma {:induction false} FirstOfItsName(ms: seq<Member>, i: nat)
    requires i < |ms| && forall j :: 0 <= j < i ==> ms[j].name != ms[i].name
    ensures Lookup(ms, ms[i].name) == Some(ms[i].value)
  {
    if i > 0 {
      FirstOfItsName(ms[1..], i - 1);
    }
  }

  /** A deep copy of a well-formed value equals it. */
  lemma DeepCopyEquals(v: Json)
    requires WellFormed(v)
    ensures DeepCopy(v).Some? && Equals(DeepCopy(v).value, v)
  {
    hide DeepCopy, EqualsWithin;
    DeepCopyIsCopy(v);
    WithinReflexive(v, EPSILON);
  }

  /** json_value_deep_copy: arrays and objects are built entry by entry. */
  method DeepCopyValue(v: Json) returns (r: Option<Json>)
    ensures r == DeepCopy(v)
    decreases v, 0
  {
    match v
    case Arr(items) => r := DeepCopyArray(items);
    case Obj(ms) => r := DeepCopyObject(ms);
    case _ => r := Some(v);
  }

  method DeepCopyArray(items: seq<Json>) returns (r: Option<Json>)
    ensures r == CopyItems(items, 0, [])
    decreases items, 0
  {
    hide DeepCopy;
    var copies: seq<Json> := [];
    for i := 0 to |items|
      invariant CopyItems(items, 0, []) == CopyItems(items, i, copies)
    {
      var copy := DeepCopyValue(items[i]);
      if copy.None? {
        return None;
      }
      copies := copies + [copy.value];
    }
    r := Some(Arr(copies));
  }

  method DeepCopyObject(ms: seq<Member>) returns (r: Option<Json>)
    ensures r == CopyMembers(ms, 0, [])
    decreases ms, 0
  {
    hide DeepCopy, Lookup, DistinctNames;
    var copies := new JsonObject();
    for i := 0 to |ms|
      invariant copies.Valid() && fresh(copies) && fresh(copies.names) && fresh(copies.values)
      invariant CopyMembers(ms, 0, []) == CopyMembers(ms, i, copies.Members())
    {
      var copy := DeepCopyValue(ValueNamed(ms, i));
      if copy.None? {
        return None;
      }
      var ok := copies.AddN(ms[i].name, copy.value);
      if !ok {
        return None;
      }
    }
    var members := copies.GetMembers();
    r := Some(Obj(members));
  }

  // ----- json_validate

  predicate SameType(a: Json, b: Json) {
    match a
    case Null => b.Null?
    case Bool(_) => b.Bool?
    case Num(_) => b.Num?
    case Str(_) => b.Str?
    case Arr(_) => b.Arr?
    case Obj(_) => b.Obj?
  }

  /** json_validate; with `counting` false, without its comparison of the field counts. */
  predicate ValidateWith(schema: Json, value: Json, counting: bool)
    decreases schema
  {
    if !SameType(schema, value) && !schema.Null? then false
    else
      match schema
      case Arr(items) =>
        items == [] || forall i :: 0 <= i < |value.items| ==> ValidateWith(items[0], value.items[i], counting)
      case Obj(ms) =>
        ms == [] ||
        (&& !(counting && |value.members| < |ms|)
         && forall i :: 0 <= i < |ms| ==>
              var field := Lookup(value.members, ms[i].name);
              field.Some? && ValidateWith(ValueNamed(ms, i), field.value, counting))
      case _ => true
  }

  predicate Validate(schema: Json, value: Json) {
    ValidateWith(schema, value, true)
  }

  lemma EnoughFields(ms: seq<Member>, fields: seq<Member>)
    requires DistinctNames(ms)
    requires forall i :: 0 <= i < |ms| ==> Lookup(fields, ms[i].name).Some?
    ensures |ms| <= |fields|
  {
    forall i | 0 <= i < |ms| ensures ms[i].name in Names(fields) {
      NameFound(fields, ms[i].name);
    }
    NamesCount(ms);
    NamesCount(fields);
    SubsetSize(Names(ms), Names(fields));
  }

  /** Comparing the field counts first never changes the verdict of a schema with distinct names. */
  lemma {:induction false} CountNeverMatters(schema: Json, value: Json)
    requires WellFormed(schema)
    ensures ValidateWith(schema, value, true) == ValidateWith(schema, value, false)
    decreases schema
  {
    hide Lookup;
    if SameType(schema, value) {
      match schema
      case Arr(items) =>
        if items != [] {
          forall i | 0 <= i < |value.items|
            ensures ValidateWith(items[0], value.items[i], true) == ValidateWith(items[0], value.items[i], false)
          {
            CountNeverMatters(items[0], value.items[i]);
          }
        }
      case Obj(ms) =>
        forall i | 0 <= i < |ms| && Lookup(value.members, ms[i].name).Some?
          ensures var field := Lookup(value.members, ms[i].name).value;
                  ValidateWith(ValueNamed(ms, i), field, true) == ValidateWith(ValueNamed(ms, i), field, false)
        {
          ValueNamedIsLookup(ms, i);
          CountNeverMatters(ValueNamed(ms, i), Lookup(value.members, ms[i].name).value);
        }
        if ValidateWith(schema, value, false) {
          EnoughFields(ms, value.members);
        }
      case _ =>
    }
  }

  /** `w` is `v` with fields added to any objects anywhere inside it. */
  ghost predicate Extends(v: Json, w: Json)
    decreases v
  {
    match v
    case Arr(items) =>
      w.Arr? && |items| == |w.items| && forall i :: 0 <= i < |items| ==> Extends(items[i], w.items[i])
    case Obj(ms) =>
      w.Obj? && forall i :: 0 <= i < |ms| ==>
        var field := Lookup(w.members, ms[i].name);
        field.Some? && Extends(ms[i].value, field.value)
    case _ => v == w
  }

  lemma ExtendedField(ms: seq<Member>, w: seq<Member>, name: CStr)
    requires Extends(Obj(ms), Obj(w)) && Lookup(ms, name).Some?
    ensures Lookup(w, name).Some? && Extends(Lookup(ms, name).value, Lookup(w, name).value)
  {
    var i := IndexOf(ms, name).value;
    hide Lookup;
    assert ms[i].name == name && ms[i].value == Lookup(ms, name).value;
  }

  /** Adding fields anywhere inside an accepted value keeps it accepted. */
  lemma {:induction false} ExtendedStaysValid(schema: Json, v: Json, w: Json)
    requires ValidateWith(schema, v, false) && Extends(v, w)
    ensures ValidateWith(schema, w, false)
    decreases schema
  {
    hide Lookup;
    match schema
    case Arr(items) =>
      if items != [] {
        forall i | 0 <= i < |w.items| ensures ValidateWith(items[0], w.items[i], false) {
          ExtendedStaysValid(items[0], v.items[i], w.items[i]);
        }
      }
    case Obj(ms) =>
      forall i | 0 <= i < |ms| && ms != []
        ensures Lookup(w.members, ms[i].name).Some?
             && ValidateWith(ValueNamed(ms, i), Lookup(w.members, ms[i].name).value, false)
      {
        ExtendedField(v.members, w.members, ms[i].name);
        ExtendedStaysValid(ValueNamed(ms, i), Lookup(v.members, ms[i].name).value, Lookup(w.members, ms[i].name).value);
      }
    case _ =>
  }

  lemma ValidateExtended(schema: Json, v: Json, w: Json)
    requires WellFormed(schema) && Validate(schema, v) && Extends(v, w)
    ensures Validate(schema, w)
  {
    hide ValidateWith, Extends;
    CountNeverMatters(schema, v);
    ExtendedStaysValid(schema, v, w);
    CountNeverMatters(schema, w);
  }
}
