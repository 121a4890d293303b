/** Dotted names: json_object_dotget_value, json_object_dotset_value and json_object_dotremove
    (parson.c:449-462, 1162-1169, 1778-1818) on trees of members. */
module DotPath {
  import opened Bytes
  import opened Json
  import opened ObjectMap

  /** strchr(name, '.'). */
  function FirstDot(name: CStr): (r: Option<nat>)
    ensures r.Some? ==> r.value < |name| && name[r.value] == '.'
  {
    if name == [] then None
    else if name[0] == '.' then Some(0)
    else Shift(1, FirstDot(name[1..]))
  }

  /** json_value_get_object: NULL, which behaves as an empty object, for anything but an object. */
  function ObjectOf(v: Option<Json>): seq<Member> {
    if v.Some? && v.value.Obj? then v.value.members else []
  }

  /** json_object_dotget_value. */
  function DotGet(ms: seq<Member>, name: CStr): Option<Json>
    decreases |name|
  {
    match FirstDot(name)
    case None => Lookup(ms, name)
    case Some(k) => DotGet(ObjectOf(Lookup(ms, name[..k])), name[k + 1..])
  }

  /** A status and the members the object is left with: the calls below change nested objects in place. */
  datatype Outcome = Outcome(ok: bool, members: seq<Member>)

  /** json_object_dotset_value. What the recursive call did to an existing child stays, whatever its status;
      a fresh child is thrown away again when anything fails. */
  function DotSet(ms: seq<Member>, name: CStr, v: Json, attached: bool): Outcome
    decreases |name|
  {
    match FirstDot(name)
    case None => if attached then Outcome(false, ms) else Outcome(true, SetMember(ms, Member(name, v)))
    case Some(k) =>
      match Lookup(ms, name[..k])
      case Some(Obj(child)) =>
        var sub := DotSet(child, name[k + 1..], v, attached);
        Outcome(sub.ok, SetMember(ms, Member(name[..k], Obj(sub.members))))
      case Some(_) => Outcome(false, ms)
      case None =>
        var sub := DotSet([], name[k + 1..], v, attached);
        var added := AddMember(ms, Member(name[..k], Obj(sub.members)));
        if sub.ok && added.Some? then Outcome(true, added.value) else Outcome(false, ms)
  }

  /** json_object_dotremove_internal. */
  function DotRemove(ms: seq<Member>, name: CStr): Outcome
    decreases |name|
  {
    match FirstDot(name)
    case None =>
      (match RemoveMember(ms, name)
       case Some(after) => Outcome(true, after)
       case None => Outcome(false, ms))
    case Some(k) =>
      match Lookup(ms, name[..k])
      case Some(Obj(child)) =>
        var sub := DotRemove(child, name[k + 1..]);
        Outcome(sub.ok, SetMember(ms, Member(name[..k], Obj(sub.members))))
      case _ => Outcome(false, ms)
  }

  // ----- The same on lists of segments

  /** The segments between the dots. */
  function Split(name: CStr): (segs: seq<CStr>)
    ensures segs != []
    decreases |name|
  {
    match FirstDot(name)
    case None => [name]
    case Some(k) => [name[..k]] + Split(name[k + 1..])
  }

  function GetPath(ms: seq<Member>, segs: seq<CStr>): Option<Json>
    requires segs != []
    decreases |segs|
  {
    if |segs| == 1 then Lookup(ms, segs[0]) else GetPath(ObjectOf(Lookup(ms, segs[0])), segs[1..])
  }

  function SetPath(ms: seq<Member>, segs: seq<CStr>, v: Json): Option<seq<Member>>
    requires segs != []
    decreases |segs|
  {
    if |segs| == 1 then Some(SetMember(ms, Member(segs[0], v)))
    else
      var step := Lookup(ms, segs[0]);
      if step.Some? && !step.value.Obj? then None
      else
        match SetPath(ObjectOf(step), segs[1..], v)
        case None => None
        case Some(sub) => Some(SetMember(ms, Member(segs[0], Obj(sub))))
  }

  function RemovePath(ms: seq<Member>, segs: seq<CStr>): Option<seq<Member>>
    requires segs != []
    decreases |segs|
  {
    if |segs| == 1 then RemoveMember(ms, segs[0])
    else
      var step := Lookup(ms, segs[0]);
      if step.None? || !step.value.Obj? then None
      else
        match RemovePath(step.value.members, segs[1..])
        case None => None
        case Some(sub) => Some(SetMember(ms, Member(segs[0], Obj(sub))))
  }

  lemma SplitStep(name: CStr)
    ensures FirstDot(name).None? ==> Split(name) == [name]
    ensures FirstDot(name).Some? ==>
              var k, segs := FirstDot(name).value, Split(name);
              |segs| > 1 && segs[0] == name[..k] && segs[1..] == Split(name[k + 1..])
  {
    hide FirstDot;
  }

  ghost predicate NoDots(segs: seq<CStr>) {
    forall i :: 0 <= i < |segs| ==> '.' !in segs[i]
  }

  /** The segments with dots between them. */
  function Join(segs: seq<CStr>): CStr
    requires segs != []
  {
    if |segs| == 1 then segs[0] else segs[0] + ("." + Join(segs[1..]))
  }

  lemma {:induction false} FirstDotIs(name: CStr, k: nat)
    requires k <= |name| && '.' !in name[..k]
    ensures FirstDot(name) == if k == |name| then None else if name[k] == '.' then Some(k) else FirstDot(name)
    decreases k
  {
    if k > 0 {
      assert name[0] in name[..k] && name[1..][..k - 1] == name[..k][1..];
      FirstDotIs(name[1..], k - 1);
    } else {
      assert name[..0] == [];
    }
  }

  lemma {:induction false} BeforeFirstDot(name: CStr)
    ensures '.' !in match FirstDot(name) case Some(k) => name[..k] case None => name
  {
    if name != [] && name[0] != '.' {
      BeforeFirstDot(name[1..]);
      match FirstDot(name[1..])
      case Some(k) => assert name[..k + 1] == [name[0]] + name[1..][..k];
      case None => assert name == [name[0]] + name[1..];
    }
  }

  lemma {:induction false} SplitJoins(name: CStr)
    ensures NoDots(Split(name)) && Join(Split(name)) == name
    decreases |name|
  {
    hide Split, FirstDot;
    SplitStep(name);
    BeforeFirstDot(name);
    match FirstDot(name)
    case None =>
    case Some(k) =>
      var segs := Split(name);
      SplitJoins(name[k + 1..]);
      assert forall i :: 0 < i < |segs| ==> segs[i] == segs[1..][i - 1];
      assert name == name[..k] + ("." + name[k + 1..]);
  }

  lemma {:induction false} JoinSplits(segs: seq<CStr>)
    requires segs != [] && NoDots(segs)
    ensures Split(Join(segs)) == segs
  {
    hide Split, FirstDot;
    var name := Join(segs);
    SplitStep(name);
    var k := |segs[0]|;
    assert name[..k] == segs[0];
    FirstDotIs(name, k);
    if |segs| > 1 {
      JoinSplits(segs[1..]);
      assert name[k] == '.' && name[k + 1..] == Join(segs[1..]);
      assert Split(name) == [Split(name)[0]] + Split(name)[1..] && segs == [segs[0]] + segs[1..];
    }
  }

  /** The segments of a name are the one list of texts without dots that gives the name when joined with dots. */
  lemma SplitIff(name: CStr, segs: seq<CStr>)
    ensures segs == Split(name) <==> segs != [] && NoDots(segs) && Join(segs) == name
  {
    hide Split, Join, NoDots;
    SplitJoins(name);
    if segs != [] && NoDots(segs) {
      JoinSplits(segs);
    }
  }

  lemma {:induction false} DotGetIsPath(ms: seq<Member>, name: CStr)
    ensures DotGet(ms, name) == GetPath(ms, Split(name))
    decreases |name|
  {
    hide Split, FirstDot;
    SplitStep(name);
    match FirstDot(name)
    case None =>
    case Some(k) => DotGetIsPath(ObjectOf(Lookup(ms, name[..k])), name[k + 1..]);
  }

  /** Setting a name to what it already holds changes nothing. */
  lemma {:induction false} SetSame(ms: seq<Member>, name: CStr)
    requires Lookup(ms, name).Some?
    ensures SetMember(ms, Member(name, Lookup(ms, name).value)) == ms
  {
    var m := Member(name, Lookup(ms, name).value);
    if ms[0].name != name {
      SetSame(ms[1..], name);
      assert SetMember(ms, m) == [ms[0]] + SetMember(ms[1..], m);
    }
  }

  /** A status that matches an optional result; on failure nothing has changed. */
  ghost predicate Matches(outcome: Outcome, ms: seq<Member>, after: Option<seq<Member>>) {
    match after
    case Some(members) => outcome == Outcome(true, members)
    case None => outcome == Outcome(false, ms)
  }

  lemma {:induction false} DotSetIsPath(ms: seq<Member>, name: CStr, v: Json, attached: bool)
    ensures Matches(DotSet(ms, name, v, attached), ms, if attached then None else SetPath(ms, Split(name), v))
    decreases |name|
  {
    hide Split, FirstDot, SetMember;
    SplitStep(name);
    match FirstDot(name)
    case None =>
    case Some(k) =>
      var step := Lookup(ms, name[..k]);
      DotSetIsPath(ObjectOf(step), name[k + 1..], v, attached);
      match step {
        case Some(Obj(child)) => SetSame(ms, name[..k]);
        case Some(_) =>
        case None => SetNew(ms, name[..k]);
      }
  }

  /** An absent name is set by adding it. */
  lemma SetNew(ms: seq<Member>, name: CStr)
    requires Lookup(ms, name).None?
    ensures forall v :: AddMember(ms, Member(name, v)) == Some(SetMember(ms, Member(name, v)))
  {
  }

  lemma {:induction false} DotRemoveIsPath(ms: seq<Member>, name: CStr)
    ensures Matches(DotRemove(ms, name), ms, RemovePath(ms, Split(name)))
    decreases |name|
  {
    hide Split, FirstDot, SetMember, RemoveMember;
    SplitStep(name);
    match FirstDot(name)
    case None =>
    case Some(k) =>
      var step := Lookup(ms, name[..k]);
      if step.Some? && step.value.Obj? {
        DotRemoveIsPath(step.value.members, name[k + 1..]);
        SetSame(ms, name[..k]);
      }
  }

  // ----- One object

  lemma SetStep(ms: seq<Member>, m: Member)
    requires ms != []
    ensures SetMember(ms, m) == if ms[0].name == m.name then [m] + ms[1..] else [ms[0]] + SetMember(ms[1..], m)
  {
    hide Lookup;
  }

  lemma SetNothing(m: Member)
    ensures SetMember([], m) == [m]
  {
  }

  lemma LookupStep(m: Member, ms: seq<Member>, name: Text)
    ensures Lookup([m] + ms, name) == if m.name == name then Some(m.value) else Lookup(ms, name)
  {
    assert ([m] + ms)[1..] == ms;
  }

  /** Setting a name changes that name's answer and no other. */
  lemma {:induction false} SetLookup(ms: seq<Member>, m: Member, name: Text)
    ensures Lookup(SetMember(ms, m), name) == if name == m.name then Some(m.value) else Lookup(ms, name)
  {
    hide SetMember, Lookup;
    if ms == [] {
      SetNothing(m);
      LookupStep(m, [], name);
      assert [m] + [] == [m];
    } else {
      SetStep(ms, m);
      LookupStep(ms[0], ms[1..], name);
      assert [ms[0]] + ms[1..] == ms;
      if ms[0].name == m.name {
        LookupStep(m, ms[1..], name);
      } else {
        LookupStep(ms[0], SetMember(ms[1..], m), name);
        SetLookup(ms[1..], m, name);
      }
    }
  }

  lemma RemoveLookup(ms: seq<Member>, gone: CStr, name: CStr)
    requires DistinctNames(ms) && RemoveMember(ms, gone).Some?
    ensures Lookup(RemoveMember(ms, gone).value, name) == if name == gone then None else Lookup(ms, name)
  {
    hide Lookup, RemoveMember;
    RemoveRefines(ms, gone);
    LookupIsMap(ms, name);
    LookupIsMap(RemoveMember(ms, gone).value, name);
  }

  // ----- Whole paths

  /** Neither path is a prefix of the other. */
  ghost predicate Diverge(p: seq<CStr>, q: seq<CStr>) {
    !(p <= q) && !(q <= p)
  }

  lemma {:induction false} SetPathHere(ms: seq<Member>, p: seq<CStr>, v: Json)
    requires p != [] && SetPath(ms, p, v).Some?
    ensures GetPath(SetPath(ms, p, v).value, p) == Some(v)
    decreases |p|
  {
    hide Lookup, SetMember;
    if |p| == 1 {
      SetLookup(ms, Member(p[0], v), p[0]);
    } else {
      var step := ObjectOf(Lookup(ms, p[0]));
      SetPathHere(step, p[1..], v);
      SetLookup(ms, Member(p[0], Obj(SetPath(step, p[1..], v).value)), p[0]);
    }
  }

  lemma {:induction false} SetPathElsewhere(ms: seq<Member>, p: seq<CStr>, v: Json, q: seq<CStr>)
    requires p != [] && q != [] && SetPath(ms, p, v).Some? && Diverge(p, q)
    ensures GetPath(SetPath(ms, p, v).value, q) == GetPath(ms, q)
    decreases |p|
  {
    hide Lookup, SetMember;
    if |p| == 1 {
      SetLookup(ms, Member(p[0], v), q[0]);
    } else {
      var step := ObjectOf(Lookup(ms, p[0]));
      SetLookup(ms, Member(p[0], Obj(SetPath(step, p[1..], v).value)), q[0]);
      if p[0] == q[0] {
        assert p == [p[0]] + p[1..] && q == [q[0]] + q[1..];
        assert |q| > 1;
        SetPathElsewhere(step, p[1..], v, q[1..]);
      }
    }
  }

  /** Below the path that was set, lookups go into the new value. */
  lemma {:induction false} SetPathBelow(ms: seq<Member>, p: seq<CStr>, v: Json, r: seq<CStr>)
    requires p != [] && r != [] && SetPath(ms, p, v).Some?
    ensures GetPath(SetPath(ms, p, v).value, p + r) == GetPath(ObjectOf(Some(v)), r)
    decreases |p|
  {
    hide Lookup, SetMember;
    assert (p + r)[1..] == p[1..] + r;
    if |p| == 1 {
      SetLookup(ms, Member(p[0], v), p[0]);
      assert p[1..] + r == r;
    } else {
      var step := ObjectOf(Lookup(ms, p[0]));
      SetPathBelow(step, p[1..], v, r);
      SetLookup(ms, Member(p[0], Obj(SetPath(step, p[1..], v).value)), p[0]);
    }
  }

  /** Above the path that was set there are objects, and the rest of the path leads from them to the new value. */
  lemma {:induction false} SetPathAbove(ms: seq<Member>, p: seq<CStr>, v: Json, k: nat)
    requires 0 < k < |p| && SetPath(ms, p, v).Some?
    ensures var above := GetPath(SetPath(ms, p, v).value, p[..k]);
            above.Some? && above.value.Obj? && GetPath(above.value.members, p[k..]) == Some(v)
    decreases |p|
  {
    hide Lookup, SetMember;
    var step := ObjectOf(Lookup(ms, p[0]));
    var sub := SetPath(step, p[1..], v).value;
    SetLookup(ms, Member(p[0], Obj(sub)), p[0]);
    if k == 1 {
      SetPathHere(step, p[1..], v);
    } else {
      assert p[..k][1..] == p[1..][..k - 1] && p[k..] == p[1..][k - 1..];
      SetPathAbove(step, p[1..], v, k - 1);
    }
  }

  /** The members of the object that the last segment of a path is looked up in. */
  function Parent(ms: seq<Member>, p: seq<CStr>): seq<Member>
    requires p != []
  {
    if |p| == 1 then ms else ObjectOf(GetPath(ms, p[..|p| - 1]))
  }

  lemma ParentStep(ms: seq<Member>, p: seq<CStr>)
    requires |p| > 1
    ensures Parent(ms, p) == Parent(ObjectOf(Lookup(ms, p[0])), p[1..])
  {
    hide Lookup;
    var front := p[..|p| - 1];
    assert front[0] == p[0] && front[1..] == p[1..][..|p| - 2];
  }

  lemma {:induction false} SetPathParent(ms: seq<Member>, p: seq<CStr>, v: Json)
    requires p != [] && SetPath(ms, p, v).Some?
    ensures Parent(SetPath(ms, p, v).value, p) == SetMember(Parent(ms, p), Member(p[|p| - 1], v))
    decreases |p|
  {
    hide Lookup, SetMember, Parent;
    if |p| == 1 {
      hide SetPath;
      ParentHere(ms, p, v);
    } else {
      var step := ObjectOf(Lookup(ms, p[0]));
      var after := SetPath(ms, p, v).value;
      SetLookup(ms, Member(p[0], Obj(SetPath(step, p[1..], v).value)), p[0]);
      ParentStep(ms, p);
      ParentStep(after, p);
      SetPathParent(step, p[1..], v);
    }
  }

  lemma ParentHere(ms: seq<Member>, p: seq<CStr>, v: Json)
    requires |p| == 1
    ensures Parent(ms, p) == ms
    ensures SetPath(ms, p, v) == Some(SetMember(ms, Member(p[0], v)))
    ensures Parent(SetPath(ms, p, v).value, p) == SetPath(ms, p, v).value
  {
  }

  /** A proper prefix of `p` holds something that is not an object. */
  ghost predicate Blocked(ms: seq<Member>, p: seq<CStr>) {
    exists i :: 0 < i < |p| && GetPath(ms, p[..i]).Some? && !GetPath(ms, p[..i]).value.Obj?
  }

  /** dotset fails exactly when a value that is not an object is in the way. */
  lemma {:induction false} SetPathFails(ms: seq<Member>, p: seq<CStr>, v: Json)
    requires p != []
    ensures SetPath(ms, p, v).None? <==> Blocked(ms, p)
    decreases |p|
  {
    hide Lookup, SetMember;
    if |p| > 1 {
      var step := Lookup(ms, p[0]);
      assert p[..1] == [p[0]] && GetPath(ms, p[..1]) == step;
      SetPathFails(ObjectOf(step), p[1..], v);
      forall i | 1 < i < |p| ensures GetPath(ms, p[..i]) == GetPath(ObjectOf(step), p[1..][..i - 1]) {
        assert p[..i][1..] == p[1..][..i - 1];
      }
      if step.None? || step.value.Obj? {
        if Blocked(ObjectOf(step), p[1..]) {
          var i :| 0 < i < |p[1..]| && GetPath(ObjectOf(step), p[1..][..i]).Some?
                   && !GetPath(ObjectOf(step), p[1..][..i]).value.Obj?;
          assert GetPath(ms, p[..i + 1]) == GetPath(ObjectOf(step), p[1..][..i]);
        }
        if Blocked(ms, p) {
          var i :| 0 < i < |p| && GetPath(ms, p[..i]).Some? && !GetPath(ms, p[..i]).value.Obj?;
          assert i > 1;
        }
      }
    }
  }

  ghost predicate GoodMembers(ms: seq<Member>) {
    WellFormed(Obj(ms))
  }

  lemma LookupGood(ms: seq<Member>, name: Text)
    requires GoodMembers(ms)
    ensures GoodMembers(ObjectOf(Lookup(ms, name)))
  {
    hide Lookup;
  }

  lemma {:induction false} RemovePathIff(ms: seq<Member>, p: seq<CStr>)
    requires p != []
    ensures RemovePath(ms, p).Some? <==> GetPath(ms, p).Some?
    decreases |p|
  {
    if |p| > 1 {
      RemovePathIff(ObjectOf(Lookup(ms, p[0])), p[1..]);
      if Lookup(ms, p[0]).None? || !Lookup(ms, p[0]).value.Obj? {
        GetPathEmpty(p[1..]);
      }
    }
  }

  lemma {:induction false} GetPathEmpty(p: seq<CStr>)
    requires p != []
    ensures GetPath([], p).None?
    decreases |p|
  {
    if |p| > 1 {
      GetPathEmpty(p[1..]);
    }
  }

  lemma {:induction false} RemovePathHere(ms: seq<Member>, p: seq<CStr>)
    requires p != [] && GoodMembers(ms) && RemovePath(ms, p).Some?
    ensures GetPath(RemovePath(ms, p).value, p).None?
    decreases |p|
  {
    hide Lookup, SetMember, RemoveMember;
    if |p| == 1 {
      RemoveLookup(ms, p[0], p[0]);
    } else {
      LookupGood(ms, p[0]);
      var step := ObjectOf(Lookup(ms, p[0]));
      RemovePathHere(step, p[1..]);
      SetLookup(ms, Member(p[0], Obj(RemovePath(step, p[1..]).value)), p[0]);
    }
  }

  lemma {:induction false} RemovePathElsewhere(ms: seq<Member>, p: seq<CStr>, q: seq<CStr>)
    requires p != [] && q != [] && GoodMembers(ms) && RemovePath(ms, p).Some? && Diverge(p, q)
    ensures GetPath(RemovePath(ms, p).value, q) == GetPath(ms, q)
    decreases |p|
  {
    hide Lookup, SetMember, RemoveMember;
    if |p| == 1 {
      RemoveLookup(ms, p[0], q[0]);
    } else {
      LookupGood(ms, p[0]);
      var step := ObjectOf(Lookup(ms, p[0]));
      SetLookup(ms, Member(p[0], Obj(RemovePath(step, p[1..]).value)), q[0]);
      if p[0] == q[0] {
        assert p == [p[0]] + p[1..] && q == [q[0]] + q[1..];
        RemovePathElsewhere(step, p[1..], q[1..]);
      }
    }
  }

  /** Above the path that was removed all objects stay, and its own object loses one member. */
  lemma {:induction false} RemovePathAbove(ms: seq<Member>, p: seq<CStr>)
    requires p != [] && RemovePath(ms, p).Some?
    ensures var after := RemovePath(ms, p).value;
            && RemoveMember(Parent(ms, p), p[|p| - 1]) == Some(Parent(after, p))
            && forall k :: 0 < k < |p| ==> GetPath(after, p[..k]).Some? && GetPath(after, p[..k]).value.Obj?
    decreases |p|
  {
    hide Lookup, SetMember, RemoveMember, Parent;
    if |p| == 1 {
      hide Parent;
      RemovedHere(ms, p);
    } else {
      var step := ObjectOf(Lookup(ms, p[0]));
      var after, sub := RemovePath(ms, p).value, RemovePath(step, p[1..]).value;
      SetLookup(ms, Member(p[0], Obj(sub)), p[0]);
      ParentStep(ms, p);
      ParentStep(after, p);
      RemovePathAbove(step, p[1..]);
      forall k | 0 < k < |p| ensures GetPath(after, p[..k]).Some? && GetPath(after, p[..k]).value.Obj? {
        assert p[..k][1..] == p[1..][..k - 1];
        if k > 1 {
          assert GetPath(after, p[..k]) == GetPath(sub, p[1..][..k - 1]);
        }
      }
    }
  }

  lemma RemovedHere(ms: seq<Member>, p: seq<CStr>)
    requires |p| == 1 && RemovePath(ms, p).Some?
    ensures RemoveMember(Parent(ms, p), p[0]) == Some(Parent(RemovePath(ms, p).value, p))
  {
  }

  lemma SetKeepsGood(ms: seq<Member>, m: Member)
    requires GoodMembers(ms) && WellFormed(m.value)
    ensures GoodMembers(SetMember(ms, m))
  {
    hide Lookup;
    SetRefines(ms, m);
  }

  lemma RemoveKeepsGood(ms: seq<Member>, name: CStr)
    requires GoodMembers(ms) && RemoveMember(ms, name).Some?
    ensures GoodMembers(RemoveMember(ms, name).value)
  {
    hide Lookup, RemoveAt, ToMap;
    RemoveRefines(ms, name);
    RemoveAtElements(ms, IndexOf(ms, name).value);
  }

  lemma {:induction false} PathsKeepGood(ms: seq<Member>, p: seq<CStr>, v: Json)
    requires p != [] && GoodMembers(ms) && WellFormed(v)
    ensures SetPath(ms, p, v).Some? ==> GoodMembers(SetPath(ms, p, v).value)
    ensures RemovePath(ms, p).Some? ==> GoodMembers(RemovePath(ms, p).value)
    decreases |p|
  {
    hide Lookup, SetMember, RemoveMember, GoodMembers;
    if |p| == 1 {
      SetKeepsGood(ms, Member(p[0], v));
      if RemoveMember(ms, p[0]).Some? {
        RemoveKeepsGood(ms, p[0]);
      }
    } else {
      LookupGood(ms, p[0]);
      var step := ObjectOf(Lookup(ms, p[0]));
      PathsKeepGood(step, p[1..], v);
      if SetPath(step, p[1..], v).Some? {
        GoodIsWellFormed(SetPath(step, p[1..], v).value);
        SetKeepsGood(ms, Member(p[0], Obj(SetPath(step, p[1..], v).value)));
      }
      if RemovePath(step, p[1..]).Some? {
        GoodIsWellFormed(RemovePath(step, p[1..]).value);
        SetKeepsGood(ms, Member(p[0], Obj(RemovePath(step, p[1..]).value)));
      }
    }
  }

  lemma GoodIsWellFormed(ms: seq<Member>)
    ensures GoodMembers(ms) == WellFormed(Obj(ms))
  {
  }

  // ----- The laws, for dotted names

  /** dotset fails exactly when the value already has a parent or a value that is not an object is in the way,
      and then nothing in the tree has changed. */
  lemma DotSetFailsIff(ms: seq<Member>, name: CStr, v: Json, attached: bool)
    ensures !DotSet(ms, name, v, attached).ok <==> attached || Blocked(ms, Split(name))
    ensures !DotSet(ms, name, v, attached).ok ==> DotSet(ms, name, v, attached).members == ms
  {
    hide Split, DotSet, Blocked;
    DotSetIsPath(ms, name, v, attached);
    SetPathFails(ms, Split(name), v);
  }

  /** After a successful dotset: the value at its name, set there as in one object, the value's own members below it,
      objects that lead to it above, and no change elsewhere. */
  lemma DotSetGet(ms: seq<Member>, name: CStr, v: Json, other: CStr)
    requires DotSet(ms, name, v, false).ok
    ensures var after, p, q := DotSet(ms, name, v, false).members, Split(name), Split(other);
            && DotGet(after, name) == Some(v)
            && Parent(after, p) == SetMember(Parent(ms, p), Member(p[|p| - 1], v))
            && (Diverge(p, q) ==> DotGet(after, other) == DotGet(ms, other))
            && (p < q ==> DotGet(after, other) == GetPath(ObjectOf(Some(v)), q[|p|..]))
            && (q < p ==>
                  var above := DotGet(after, other);
                  above.Some? && above.value.Obj? && GetPath(above.value.members, p[|q|..]) == Some(v))
  {
    hide Split, DotSet, DotGet, SetPath, GetPath, Parent, SetMember;
    var after, p, q := DotSet(ms, name, v, false).members, Split(name), Split(other);
    DotSetIsPath(ms, name, v, false);
    DotGetIsPath(after, name);
    DotGetIsPath(after, other);
    DotGetIsPath(ms, other);
    SetPathHere(ms, p, v);
    SetPathParent(ms, p, v);
    if Diverge(p, q) {
      SetPathElsewhere(ms, p, v, q);
    } else if p < q {
      assert q == p + q[|p|..];
      SetPathBelow(ms, p, v, q[|p|..]);
    } else if q < p {
      SetPathAbove(ms, p, v, |q|);
      assert p[..|q|] == q;
    }
  }

  /** dotremove succeeds exactly when dotget finds something; then it is gone from its object, as in one object, the
      objects above stay, and no diverging path has changed. Otherwise nothing has. */
  lemma DotRemoveGet(ms: seq<Member>, name: CStr, other: CStr)
    requires GoodMembers(ms)
    ensures DotRemove(ms, name).ok <==> DotGet(ms, name).Some?
    ensures var (ok, after) := (DotRemove(ms, name).ok, DotRemove(ms, name).members);
            var p, q := Split(name), Split(other);
            if ok then
              && DotGet(after, name).None?
              && RemoveMember(Parent(ms, p), p[|p| - 1]) == Some(Parent(after, p))
              && (q < p ==> DotGet(after, other).Some? && DotGet(after, other).value.Obj?)
              && (Diverge(p, q) ==> DotGet(after, other) == DotGet(ms, other))
            else
              after == ms
  {
    hide Split, DotRemove, DotGet, RemovePath, GetPath, Parent, RemoveMember;
    DotRemoveIsPath(ms, name);
    DotGetIsPath(ms, name);
    RemovePathIff(ms, Split(name));
    if DotRemove(ms, name).ok {
      var after := DotRemove(ms, name).members;
      DotGetIsPath(after, name);
      RemovePathHere(ms, Split(name));
      RemovePathAbove(ms, Split(name));
      DotGetIsPath(after, other);
      if Split(other) < Split(name) {
        assert Split(name)[..|Split(other)|] == Split(other);
      } else if Diverge(Split(name), Split(other)) {
        DotGetIsPath(ms, other);
        RemovePathElsewhere(ms, Split(name), Split(other));
      }
    }
  }

  /** Both keep every object's names distinct. */
  lemma DotKeepsWellFormed(ms: seq<Member>, name: CStr, v: Json, attached: bool)
    requires WellFormed(Obj(ms)) && WellFormed(v)
    ensures WellFormed(Obj(DotSet(ms, name, v, attached).members))
    ensures WellFormed(Obj(DotRemove(ms, name).members))
  {
    hide Split, DotSet, DotRemove, SetPath, RemovePath, WellFormed;
    DotSetIsPath(ms, name, v, attached);
    DotRemoveIsPath(ms, name);
    PathsKeepGood(ms, Split(name), v);
  }
}
