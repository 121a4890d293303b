/** json_object_t: parallel, growing name and value arrays (parson.c:338-447, 1741-1760, 1868-1887),
    what each operation does to the member list, and the finite map the list stands for. */
module ObjectMap {
  import opened Bytes
  import opened Json

  const STARTING_CAPACITY: nat := 16

  // ----- The operations on the member list

  /** The position json_object_getn_value stops at. */
  function IndexOf(ms: seq<Member>, name: Text): (r: Option<nat>)
    ensures r.Some? ==> r.value < |ms| && ms[r.value].name == name && Lookup(ms, name) == Some(ms[r.value].value)
    ensures r.None? <==> Lookup(ms, name).None?
  {
    if ms == [] then None
    else if ms[0].name == name then Some(0)
    else
      match IndexOf(ms[1..], name)
      case None => None
      case Some(i) => Some(i + 1)
  }

  function Shift(i: nat, r: Option<nat>): Option<nat> {
    match r
    case None => None
    case Some(k) => Some(i + k)
  }

  lemma IndexOfNone(name: Text)
    ensures IndexOf([], name) == None
  {
  }

  /** One turn of the search loop. */
  lemma IndexOfStep(ms: seq<Member>, i: nat, name: Text)
    requires i < |ms|
    ensures IndexOf(ms[i..], name) == if ms[i].name == name then Some(0) else Shift(1, IndexOf(ms[i + 1..], name))
  {
    assert ms[i..][1..] == ms[i + 1..];
  }

  /** json_object_addn: a name already present is refused. */
  function AddMember(ms: seq<Member>, m: Member): Option<seq<Member>> {
    if Lookup(ms, m.name).Some? then None else Some(ms + [m])
  }

  /** json_object_set_value: overwrite in place, or append. */
  function SetMember(ms: seq<Member>, m: Member): (r: seq<Member>)
    ensures r != []
  {
    match IndexOf(ms, m.name)
    case Some(i) => ms[i := m]
    case None => ms + [m]
  }

  /** The last member takes the place of the removed one. */
  function RemoveAt(ms: seq<Member>, k: nat): (r: seq<Member>)
    requires k < |ms|
    ensures |r| == |ms| - 1
  {
    var last := |ms| - 1;
    if k == last then ms[..last] else ms[..last][k := ms[last]]
  }

  lemma RemoveAtElements(ms: seq<Member>, k: nat)
    requires k < |ms|
    ensures forall i :: 0 <= i < |ms| - 1 ==> RemoveAt(ms, k)[i] == ms[if i == k then |ms| - 1 else i]
  {
  }

  /** json_object_remove_internal. */
  function RemoveMember(ms: seq<Member>, name: Text): Option<seq<Member>> {
    match IndexOf(ms, name)
    case None => None
    case Some(k) => Some(RemoveAt(ms, k))
  }

  // ----- The finite map

  /** The map a list with distinct names stands for. */
  ghost function ToMap(ms: seq<Member>): (m: map<CStr, Json>)
    requires DistinctNames(ms)
  {
    map i | 0 <= i < |ms| :: ms[i].name := ms[i].value
  }

  lemma MapAt(ms: seq<Member>, i: nat)
    requires DistinctNames(ms) && i < |ms|
    ensures ms[i].name in ToMap(ms) && ToMap(ms)[ms[i].name] == ms[i].value
  {
  }

  /** Looking a name up in the list is looking it up in the map. */
  lemma LookupIsMap(ms: seq<Member>, name: CStr)
    requires DistinctNames(ms)
    ensures Lookup(ms, name) == if name in ToMap(ms) then Some(ToMap(ms)[name]) else None
  {
    LookupNone(ms, name);
    if name in ToMap(ms) {
      var i :| 0 <= i < |ms| && ms[i].name == name;
      LookupAt(ms, i);
      MapAt(ms, i);
    }
  }

  /** A list with distinct names whose pairs are those of a map stands for that map. */
  lemma SameMap(ms: seq<Member>, m: map<CStr, Json>)
    requires DistinctNames(ms)
    requires forall i :: 0 <= i < |ms| ==> ms[i].name in m && m[ms[i].name] == ms[i].value
    requires forall name :: name in m ==> HasName(ms, name)
    ensures ToMap(ms) == m
  {
    forall name | name in m
      ensures name in ToMap(ms) && ToMap(ms)[name] == m[name]
    {
      var i :| 0 <= i < |ms| && ms[i].name == name;
      MapAt(ms, i);
    }
  }

  lemma AddRefines(ms: seq<Member>, m: Member)
    requires DistinctNames(ms)
    ensures AddMember(ms, m).Some? <==> m.name !in ToMap(ms)
    ensures AddMember(ms, m).Some? ==>
              var after := AddMember(ms, m).value;
              DistinctNames(after) && ToMap(after) == ToMap(ms)[m.name := m.value]
  {
    hide Lookup;
    LookupIsMap(ms, m.name);
    if m.name !in ToMap(ms) {
      var after, target := ms + [m], ToMap(ms)[m.name := m.value];
      forall i | 0 <= i < |ms| ensures ms[i].name != m.name {
        MapAt(ms, i);
      }
      forall name | name in target ensures HasName(after, name) {
        var i :| 0 <= i <= |ms| && (if i == |ms| then m.name else ms[i].name) == name;
        assert after[i].name == name;
      }
      SameMap(after, target);
    }
  }

  lemma ReplaceRefines(ms: seq<Member>, k: nat, m: Member)
    requires DistinctNames(ms) && k < |ms| && ms[k].name == m.name
    ensures DistinctNames(ms[k := m]) && ToMap(ms[k := m]) == ToMap(ms)[m.name := m.value]
  {
    var after, target := ms[k := m], ToMap(ms)[m.name := m.value];
    assert forall i :: 0 <= i < |ms| ==> after[i].name == ms[i].name;
    forall i | 0 <= i < |ms| ensures after[i].name in target && target[after[i].name] == after[i].value {
      MapAt(ms, i);
    }
    forall name | name in target ensures HasName(after, name) {
      var i :| 0 <= i < |ms| && ms[i].name == name;
      assert after[i].name == name;
    }
    SameMap(after, target);
  }

  lemma SetRefines(ms: seq<Member>, m: Member)
    requires DistinctNames(ms)
    ensures DistinctNames(SetMember(ms, m))
    ensures ToMap(SetMember(ms, m)) == ToMap(ms)[m.name := m.value]
  {
    hide ToMap;
    match IndexOf(ms, m.name)
    case None => AddRefines(ms, m);
    case Some(k) => ReplaceRefines(ms, k, m);
  }

  lemma RemoveAtDistinct(ms: seq<Member>, k: nat)
    requires DistinctNames(ms) && k < |ms|
    ensures DistinctNames(RemoveAt(ms, k))
  {
    hide RemoveAt;
    RemoveAtElements(ms, k);
  }

  lemma RemoveAtRefines(ms: seq<Member>, k: nat)
    requires DistinctNames(ms) && k < |ms|
    ensures DistinctNames(RemoveAt(ms, k)) && ToMap(RemoveAt(ms, k)) == ToMap(ms) - {ms[k].name}
  {
    hide RemoveAt;
    RemoveAtDistinct(ms, k);
    RemoveAtElements(ms, k);
    var last, after, target := |ms| - 1, RemoveAt(ms, k), ToMap(ms) - {ms[k].name};
    forall i | 0 <= i < last ensures after[i].name in target && target[after[i].name] == after[i].value {
      MapAt(ms, if i == k then last else i);
    }
    forall other | other in target ensures HasName(after, other) {
      var i :| 0 <= i < |ms| && ms[i].name == other;
      assert after[if i == last then k else i].name == other;
    }
    hide DistinctNames, ToMap;
    SameMap(after, target);
  }

  lemma RemoveRefines(ms: seq<Member>, name: CStr)
    requires DistinctNames(ms)
    ensures RemoveMember(ms, name).Some? <==> name in ToMap(ms)
    ensures RemoveMember(ms, name).Some? ==>
              var after := RemoveMember(ms, name).value;
              DistinctNames(after) && ToMap(after) == ToMap(ms) - {name}
  {
    hide Lookup, RemoveAt, ToMap, IndexOf;
    LookupIsMap(ms, name);
    match IndexOf(ms, name)
    case None =>
    case Some(k) => RemoveAtRefines(ms, k);
  }

  /** Where members stand: a new one goes last, a set value replaces the one of its name in its place, and the last
      member takes the place of a removed one. */
  lemma Places(ms: seq<Member>, m: Member)
    requires DistinctNames(ms)
    ensures !HasName(ms, m.name) ==>
              AddMember(ms, m) == Some(ms + [m]) && SetMember(ms, m) == ms + [m] && RemoveMember(ms, m.name) == None
    ensures forall k :: 0 <= k < |ms| && ms[k].name == m.name ==>
              && AddMember(ms, m) == None && SetMember(ms, m) == ms[..k] + [m] + ms[k + 1..]
              && var last := |ms| - 1;
                 RemoveMember(ms, m.name)
                 == Some(if k == last then ms[..k] else ms[..k] + [ms[last]] + ms[k + 1..last])
  {
    hide Lookup, IndexOf;
    LookupNone(ms, m.name);
    forall k | 0 <= k < |ms| && ms[k].name == m.name
      ensures IndexOf(ms, m.name) == Some(k) && Lookup(ms, m.name).Some?
    {
    }
    var last := |ms| - 1;
    assert forall k :: 0 <= k < |ms| ==> ms[k := m] == ms[..k] + [m] + ms[k + 1..];
    assert forall k :: 0 <= k < last ==> RemoveAt(ms, k) == ms[..k] + [ms[last]] + ms[k + 1..last];
  }

  /** The count is the size of the map. */
  lemma {:induction false} CountIsSize(ms: seq<Member>)
    requires DistinctNames(ms)
    ensures |ToMap(ms)| == |ms|
  {
    if ms == [] {
      assert ToMap(ms) == map[];
    } else {
      var front, m := ms[..|ms| - 1], ms[|ms| - 1];
      CountIsSize(front);
      assert front + [m] == ms;
      assert m.name !in ToMap(front);
      LookupNone(front, m.name);
      AddRefines(front, m);
    }
  }

  // ----- Any sequence of operations

  datatype Op =
    | Add(m: Member)
    | Set(m: Member, attached: bool)
    | Remove(name: CStr)
    | Resize(capacity: nat)
    | Clear

  /** What one call makes of the member list. */
  function Apply(ms: seq<Member>, op: Op): seq<Member> {
    match op
    case Add(m) => (match AddMember(ms, m) case Some(after) => after case None => ms)
    case Set(m, attached) => if attached then ms else SetMember(ms, m)
    case Remove(name) => (match RemoveMember(ms, name) case Some(after) => after case None => ms)
    case Resize(_) => ms
    case Clear => []
  }

  function Run(ops: seq<Op>): seq<Member> {
    if ops == [] then [] else Apply(Run(ops[..|ops| - 1]), ops[|ops| - 1])
  }

  /** What one call makes of the finite map. */
  ghost function ApplyMap(m: map<CStr, Json>, op: Op): map<CStr, Json> {
    match op
    case Add(e) => if e.name in m then m else m[e.name := e.value]
    case Set(e, attached) => if attached then m else m[e.name := e.value]
    case Remove(name) => m - {name}
    case Resize(_) => m
    case Clear => map[]
  }

  /** The status it returns, seen from the map. */
  ghost predicate Succeeds(m: map<CStr, Json>, op: Op) {
    match op
    case Add(e) => e.name !in m
    case Set(_, attached) => !attached
    case Remove(name) => name in m
    case Resize(capacity) => capacity != 0
    case Clear => true
  }

  ghost function RunMap(ops: seq<Op>): map<CStr, Json> {
    if ops == [] then map[] else ApplyMap(RunMap(ops[..|ops| - 1]), ops[|ops| - 1])
  }

  lemma EmptyMap()
    ensures ToMap([]) == map[]
  {
  }

  lemma ApplyRefines(ms: seq<Member>, op: Op)
    requires DistinctNames(ms)
    ensures DistinctNames(Apply(ms, op)) && ToMap(Apply(ms, op)) == ApplyMap(ToMap(ms), op)
  {
    hide AddMember, SetMember, RemoveMember, ToMap;
    match op
    case Add(m) => AddRefines(ms, m);
    case Set(m, _) => SetRefines(ms, m);
    case Remove(name) =>
      RemoveRefines(ms, name);
      assert name !in ToMap(ms) ==> ToMap(ms) - {name} == ToMap(ms);
    case Resize(_) =>
    case Clear => EmptyMap();
  }

  /** After any sequence of operations names are distinct and the members stand for the finite map. */
  lemma {:induction false} RunRefines(ops: seq<Op>)
    ensures DistinctNames(Run(ops)) && ToMap(Run(ops)) == RunMap(ops) && |Run(ops)| == |RunMap(ops)|
  {
    hide Apply, ApplyMap, ToMap;
    if ops == [] {
      EmptyMap();
    } else {
      RunRefines(ops[..|ops| - 1]);
      ApplyRefines(Run(ops[..|ops| - 1]), ops[|ops| - 1]);
    }
    CountIsSize(Run(ops));
  }

  // ----- The object in memory

  class JsonObject {
    var names: array<CStr>
    var values: array<Json>
    var count: nat
    var capacity: nat

    ghost predicate Valid()
      reads this, names, values
    {
      && names.Length == values.Length == capacity
      && count <= capacity
      && DistinctNames(Members())
    }

    ghost function Members(): (ms: seq<Member>)
      requires count <= names.Length && count <= values.Length
      reads this, names, values
      ensures |ms| == count
    {
      seq(count, i requires 0 <= i < count reads this, names, values
                   requires count <= names.Length && count <= values.Length
                   => Member(names[i], values[i]))
    }

    /** json_object_init. */
    constructor ()
      ensures Valid() && Members() == [] && fresh(names) && fresh(values)
    {
      names, values := new CStr[0], new Json[0];
      count, capacity := 0, 0;
    }

    /** json_object_get_name and json_object_get_value_at for every index. */
    method GetMembers() returns (ms: seq<Member>)
      requires Valid()
      ensures ms == Members()
    {
      ms := [];
      for i := 0 to count
        invariant ms == Members()[..i]
      {
        ms := ms + [Member(names[i], values[i])];
      }
    }

    /** The search loop shared by json_object_getn_value, set_value and remove_internal. */
    method Find(name: Text) returns (r: Option<nat>)
      requires Valid()
      ensures r == IndexOf(Members(), name)
    {
      hide IndexOf, Lookup, DistinctNames;
      ghost var ms := Members();
      assert ms[0..] == ms;
      for i := 0 to count
        invariant IndexOf(ms, name) == Shift(i, IndexOf(ms[i..], name))
      {
        assert ms[i] == Member(names[i], values[i]);
        IndexOfStep(ms, i, name);
        if names[i] == name {
          return Some(i);
        }
      }
      assert ms[count..] == [];
      IndexOfNone(name);
      return None;
    }

    /** json_object_getn_value. */
    method GetN(name: Text) returns (r: Option<Json>)
      requires Valid()
      ensures r == Lookup(Members(), name)
    {
      var i := Find(name);
      r := if i.Some? then Some(values[i.value]) else None;
    }

    /** json_object_resize: new arrays, the first `count` entries copied over. */
    method Resize(newCapacity: nat) returns (ok: bool)
      requires Valid() && count <= newCapacity
      modifies this
      ensures Valid() && Members() == old(Members()) && count == old(count)
      ensures ok == (newCapacity != 0)
      ensures ok ==> capacity == newCapacity && fresh(names) && fresh(values)
      ensures !ok ==> names == old(names) && values == old(values) && capacity == old(capacity)
    {
      if newCapacity == 0 {
        return false;
      }
      var newNames, newValues := new CStr[newCapacity], new Json[newCapacity];
      for i := 0 to count
        invariant newNames[..i] == names[..i] && newValues[..i] == values[..i]
        modifies newNames, newValues
      {
        newNames[i], newValues[i] := names[i], values[i];
      }
      hide DistinctNames;
      ghost var was := Members();
      forall i | 0 <= i < count ensures newNames[i] == names[i] && newValues[i] == values[i] {
        assert newNames[..count][i] == names[..count][i] && newValues[..count][i] == values[..count][i];
      }
      names, values, capacity := newNames, newValues, newCapacity;
      assert Members() == was;
      return true;
    }

    /** json_object_addn. */
    method AddN(name: CStr, value: Json) returns (ok: bool)
      requires Valid()
      modifies this, names, values
      ensures Valid()
      ensures ok == AddMember(old(Members()), Member(name, value)).Some?
      ensures Members() == if ok then AddMember(old(Members()), Member(name, value)).value else old(Members())
      ensures names == old(names) || fresh(names)
      ensures values == old(values) || fresh(values)
      ensures capacity == if ok && old(count == capacity) then Max(2 * old(capacity), 16) else old(capacity)
    {
      hide Lookup;
      var present := GetN(name);
      if present.Some? {
        return false;
      }
      ghost var was := Members();
      LookupNone(was, name);
      if count >= capacity {
        var _ := Resize(Max(capacity * 2, STARTING_CAPACITY));
      }
      names[count], values[count] := name, value;
      count := count + 1;
      assert Members() == was + [Member(name, value)];
      return true;
    }

    /** json_object_set_value; `attached` is `value->parent != NULL`. */
    method SetValue(name: CStr, value: Json, attached: bool) returns (ok: bool)
      requires Valid()
      modifies this, names, values
      ensures Valid() && ok == !attached
      ensures Members() == if ok then SetMember(old(Members()), Member(name, value)) else old(Members())
      ensures names == old(names) || fresh(names)
      ensures values == old(values) || fresh(values)
    {
      if attached {
        return false;
      }
      var i := Find(name);
      if i.Some? {
        ghost var was := Members();
        SetRefines(was, Member(name, value));
        values[i.value] := value;
        assert Members() == was[i.value := Member(name, value)];
        return true;
      }
      ok := AddN(name, value);
    }

    /** Take out the member at `k`. */
    method RemoveIndex(k: nat)
      requires Valid() && k < count
      modifies this, names, values
      ensures Valid() && names == old(names) && values == old(values) && capacity == old(capacity)
      ensures Members() == RemoveAt(old(Members()), k)
    {
      hide ToMap, DistinctNames;
      ghost var was := Members();
      RemoveAtRefines(was, k);
      RemoveAtElements(was, k);
      hide RemoveAt;
      var last := count - 1;
      if k != last {
        names[k], values[k] := names[last], values[last];
      }
      count := count - 1;
      assert forall j :: 0 <= j < last ==> Members()[j] == RemoveAt(was, k)[j];
      assert Members() == RemoveAt(was, k);
    }

    /** json_object_remove_internal. */
    method RemoveInternal(name: CStr) returns (ok: bool)
      requires Valid()
      modifies this, names, values
      ensures Valid() && names == old(names) && values == old(values) && capacity == old(capacity)
      ensures ok == RemoveMember(old(Members()), name).Some?
      ensures Members() == if ok then RemoveMember(old(Members()), name).value else old(Members())
    {
      var i := Find(name);
      if i.None? {
        return false;
      }
      RemoveIndex(i.value);
      return true;
    }

    /** json_object_clear: the arrays are kept. */
    method Clear()
      requires Valid()
      modifies this
      ensures Valid() && Members() == [] && capacity == old(capacity)
      ensures names == old(names) && values == old(values)
    {
      count := 0;
    }
  }

  /** One call on an object. */
  method Perform(obj: JsonObject, op: Op) returns (ok: bool)
    requires obj.Valid() && (op.Resize? ==> obj.count <= op.capacity)
    modifies obj, obj.names, obj.values
    ensures obj.Valid() && obj.Members() == Apply(old(obj.Members()), op)
    ensures ok == Succeeds(ToMap(old(obj.Members())), op)
    ensures (obj.names == old(obj.names) || fresh(obj.names)) && (obj.values == old(obj.values) || fresh(obj.values))
  {
    hide AddMember, SetMember, RemoveMember, ToMap, DistinctNames;
    match op {
      case Add(m) =>
        AddRefines(obj.Members(), m);
        ok := obj.AddN(m.name, m.value);
      case Set(m, attached) =>
        ok := obj.SetValue(m.name, m.value, attached);
      case Remove(name) =>
        RemoveRefines(obj.Members(), name);
        ok := obj.RemoveInternal(name);
      case Resize(capacity) =>
        ok := obj.Resize(capacity);
      case Clear =>
        obj.Clear();
        ok := true;
    }
  }

  /** After every sequence of calls, resizing included, the arrays hold the members of the finite map that the same
      sequence builds, within the capacity, and every status was the one the map calls for. */
  method RunOps(ops: seq<Op>) returns (obj: JsonObject, results: seq<bool>)
    requires forall i :: 0 <= i < |ops| && ops[i].Resize? ==> |RunMap(ops[..i])| <= ops[i].capacity
    ensures obj.Valid() && obj.Members() == Run(ops)
    ensures ToMap(obj.Members()) == RunMap(ops) && obj.count == |RunMap(ops)| <= obj.capacity
    ensures |results| == |ops| && forall i :: 0 <= i < |ops| ==> results[i] == Succeeds(RunMap(ops[..i]), ops[i])
  {
    hide Apply, ApplyMap, ToMap, DistinctNames, Succeeds;
    obj := new JsonObject();
    results := [];
    for i := 0 to |ops|
      invariant obj.Valid() && fresh(obj) && fresh(obj.names) && fresh(obj.values)
      invariant obj.Members() == Run(ops[..i])
      invariant |results| == i && forall j :: 0 <= j < i ==> results[j] == Succeeds(RunMap(ops[..j]), ops[j])
    {
      RunRefines(ops[..i]);
      var ok := Perform(obj, ops[i]);
      assert ops[..i + 1][..i] == ops[..i];
      results := results + [ok];
    }
    assert ops[..|ops|] == ops;
    RunRefines(ops);
  }
}
