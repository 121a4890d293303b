/** The parse_* routines as they are: they advance the caller's pointer and build objects in place. */
module ParserCursor {
  import opened Bytes
  import opened Cursors
  import opened StringCodec
  import opened Json
  import opened ObjectMap
  import opened Parser

  /** A routine's result and the pointer it leaves agree with what the text parses to. */
  ghost predicate Agrees(r: Option<Json>, rest: Text, p: Parse<Json>) {
    match r
    case Some(v) => p == Success(v, rest)
    case None => p.Failure?
  }

  method ParseLiteralAt(c: Cursor) returns (r: Option<Json>)
    requires c.Valid()
    modifies c
    ensures c.Valid()
    ensures Head(old(c.Rest())) in {'t', 'f'} ==> Agrees(r, c.Rest(), ParseBoolean(old(c.Rest())))
    ensures Head(old(c.Rest())) == 'n' ==> Agrees(r, c.Rest(), ParseNull(old(c.Rest())))
  {
    var t := c.text[c.pos..];
    if "true" <= t {
      c.Advance(4);
      return Some(Bool(true));
    } else if "false" <= t {
      c.Advance(5);
      return Some(Bool(false));
    } else if "null" <= t {
      c.Advance(4);
      return Some(Null);
    }
    return None;
  }

  /** parse_string_value. */
  method ParseStringAt(c: Cursor) returns (r: Option<Json>)
    requires c.Valid()
    modifies c
    ensures c.Valid() && Agrees(r, c.Rest(), ParseString(old(c.Rest())))
  {
    hide GetQuoted;
    var s := GetQuotedAt(c);
    r := if s.None? then None else Some(Str(s.value));
  }

  /** parse_number_value. */
  method ParseNumberAt(lib: Libc, c: Cursor) returns (r: Option<Json>)
    requires c.Valid()
    modifies c
    ensures c.Valid() && Agrees(r, c.Rest(), ParseNumber(lib, old(c.Rest())))
  {
    var t := c.text[c.pos..];
    var reading := lib.strtod(t);
    if !reading.inRange || !IsDecimal(t, reading.consumed) {
      return None;
    }
    c.Advance(reading.consumed);
    r := if reading.value.None? then None else Some(Num(reading.value.value));
  }

  /** parse_value. */
  method ParseValueAt(lib: Libc, c: Cursor, nesting: nat) returns (r: Option<Json>)
    requires c.Valid()
    modifies c
    ensures c.Valid() && Agrees(r, c.Rest(), ParseValue(lib, old(c.Rest()), nesting))
    decreases |c.Rest()|, 2
  {
    hide ParseObject, ParseArray, ParseString, ParseNumber, ParseBoolean, ParseNull, SkipSpace;
    if nesting > MAX_NESTING {
      return None;
    }
    c.SkipWhitespaces();
    var b := c.Peek();
    if b == '{' {
      r := ParseObjectAt(lib, c, nesting + 1);
    } else if b == '[' {
      r := ParseArrayAt(lib, c, nesting + 1);
    } else if b == '\"' {
      r := ParseStringAt(c);
    } else if b == 'f' || b == 't' || b == 'n' {
      r := ParseLiteralAt(c);
    } else if StartsNumber(b) {
      r := ParseNumberAt(lib, c);
    } else {
      r := None;
    }
  }

  /** What a loop turn that did not see a comma leaves to be decided. */
  ghost function Close(v: Json, t: Text, close: byte): Parse<Json>
    requires close != '\0'
  {
    var u := SkipSpace(t);
    if Head(u) == close then Success(v, u[1..]) else Failure
  }

  /** The rest of an array once parse_value has returned. */
  ghost function AfterElement(lib: Libc, p: Parse<Json>, nesting: nat, acc: seq<Json>): Parse<Json> {
    if p.Failure? then Failure
    else
      var u := SkipSpace(p.rest);
      if Head(u) == ',' then ParseElements(lib, SkipSpace(u[1..]), nesting, acc + [p.value])
      else Close(Arr(acc + [p.value]), u, ']')
  }

  lemma SkipSpaceTwice(t: Text)
    ensures SkipSpace(SkipSpace(t)) == SkipSpace(t)
  {
  }

  lemma SkipAtEnd(t: Text)
    requires Head(t) == '\0'
    ensures SkipSpace(t) == t
  {
  }

  lemma ElementsUnfold(lib: Libc, t: Text, nesting: nat, acc: seq<Json>)
    ensures Head(t) == '\0' ==> ParseElements(lib, t, nesting, acc) == Failure == Close(Arr(acc), t, ']')
    ensures Head(t) != '\0' ==>
              ParseElements(lib, t, nesting, acc) == AfterElement(lib, ParseValue(lib, t, nesting), nesting, acc)
  {
    hide ParseValue;
    var p := ParseValue(lib, t, nesting);
    if p.Success? {
      SkipSpaceTwice(p.rest);
    }
  }

  /** parse_array_value. */
  method ParseArrayAt(lib: Libc, c: Cursor, nesting: nat) returns (r: Option<Json>)
    requires c.Valid()
    modifies c
    ensures c.Valid() && Agrees(r, c.Rest(), ParseArray(lib, old(c.Rest()), nesting))
    decreases |c.Rest()|, 1
  {
    hide ParseElements, ParseValue, SkipSpace;
    if c.Peek() != '[' {
      return None;
    }
    c.Advance(1);
    c.SkipWhitespaces();
    if c.Peek() == ']' {
      c.Advance(1);
      return Some(Arr([]));
    }
    ghost var goal := ParseElements(lib, c.Rest(), nesting, []);
    var items: seq<Json> := [];
    while c.Peek() != '\0'
      invariant c.Valid() && |c.Rest()| < |old(c.Rest())|
      invariant goal == ParseElements(lib, c.Rest(), nesting, items)
      decreases |c.Rest()|
    {
      ElementsUnfold(lib, c.Rest(), nesting, items);
      var v := ParseValueAt(lib, c, nesting);
      if v.None? {
        return None;
      }
      items := items + [v.value];
      ghost var t3 := c.Rest();
      SkipSpaceTwice(t3);
      c.SkipWhitespaces();
      if c.Peek() != ',' {
        assert goal == Close(Arr(items), c.Rest(), ']');
        break;
      }
      c.Advance(1);
      c.SkipWhitespaces();
    }
    assert goal == Close(Arr(items), c.Rest(), ']') by {
      if Head(c.Rest()) == '\0' {
        ElementsUnfold(lib, c.Rest(), nesting, items);
      }
    }
    c.SkipWhitespaces();
    if c.Peek() != ']' {
      return None;
    }
    c.Advance(1);
    return Some(Arr(items));
  }

  /** The rest of an object once a member's value has been read. */
  ghost function AfterMember(lib: Libc, key: CStr, p: Parse<Json>, nesting: nat, acc: seq<Member>): Parse<Json> {
    if p.Failure? || Lookup(acc, key).Some? then Failure
    else
      var u := SkipSpace(p.rest);
      var after := acc + [Member(key, p.value)];
      if Head(u) == ',' then ParseMembers(lib, SkipSpace(u[1..]), nesting, after) else Close(Obj(after), u, '}')
  }

  /** The rest of an object once a member's name has been read. */
  ghost function AfterName(lib: Libc, q: Option<(CStr, Text)>, nesting: nat, acc: seq<Member>): Parse<Json> {
    if q.None? then Failure
    else
      var u := SkipSpace(q.value.1);
      if Head(u) != ':' then Failure
      else AfterMember(lib, q.value.0, ParseValue(lib, u[1..], nesting), nesting, acc)
  }

  lemma MembersUnfold(lib: Libc, t: Text, nesting: nat, acc: seq<Member>)
    ensures Head(t) == '\0' ==> ParseMembers(lib, t, nesting, acc) == Failure == Close(Obj(acc), t, '}')
    ensures Head(t) != '\0' ==> ParseMembers(lib, t, nesting, acc) == AfterName(lib, GetQuoted(t), nesting, acc)
  {
    hide ParseValue, GetQuoted, Lookup;
    if GetQuoted(t).Some? {
      var u := SkipSpace(GetQuoted(t).value.1);
      if Head(u) == ':' {
        var p := ParseValue(lib, u[1..], nesting);
        if p.Success? {
          SkipSpaceTwice(p.rest);
        }
      }
    }
  }

  /** A name and its colon. */
  method ParseNameAt(c: Cursor) returns (key: Option<CStr>)
    requires c.Valid()
    modifies c
    ensures c.Valid()
    ensures var q := GetQuoted(old(c.Rest()));
            if q.Some? && Head(SkipSpace(q.value.1)) == ':' then
              key == Some(q.value.0) && c.Rest() == SkipSpace(q.value.1)[1..] && |c.Rest()| < |old(c.Rest())|
            else
              key == None
  {
    hide SkipSpace, GetQuoted;
    key := GetQuotedAt(c);
    if key.None? {
      return None;
    }
    c.SkipWhitespaces();
    if c.Peek() != ':' {
      return None;
    }
    c.Advance(1);
  }

  /** The part of parse_object_value's loop that reads one `"name": value` and adds it. */
  method ParseMemberAt(lib: Libc, c: Cursor, nesting: nat, obj: JsonObject) returns (ok: bool)
    requires c.Valid() && obj.Valid() && c.Peek() != '\0'
    modifies c, obj, obj.names, obj.values
    ensures c.Valid() && obj.Valid() && (ok ==> |c.Rest()| < |old(c.Rest())|)
    ensures fresh(obj.names) || obj.names == old(obj.names)
    ensures fresh(obj.values) || obj.values == old(obj.values)
    ensures ok ==> obj.Members() != []
    ensures ok ==>
              var u := SkipSpace(c.Rest());
              ParseMembers(lib, old(c.Rest()), nesting, old(obj.Members()))
              == if Head(u) == ',' then ParseMembers(lib, SkipSpace(u[1..]), nesting, obj.Members())
                 else Close(Obj(obj.Members()), u, '}')
    ensures !ok ==> ParseMembers(lib, old(c.Rest()), nesting, old(obj.Members())).Failure?
    decreases |c.Rest()|, 0
  {
    hide ParseMembers, ParseValue, SkipSpace, GetQuoted, Lookup, DistinctNames, Close;
    MembersUnfold(lib, c.Rest(), nesting, obj.Members());
    var key := ParseNameAt(c);
    if key.None? {
      return false;
    }
    var v := ParseValueAt(lib, c, nesting);
    if v.None? {
      return false;
    }
    ok := obj.AddN(key.value, v.value);
  }

  /** The loop of parse_object_value: members are added until no comma follows. */
  method ParseMembersAt(lib: Libc, c: Cursor, nesting: nat, obj: JsonObject) returns (ok: bool)
    requires c.Valid() && obj.Valid()
    modifies c, obj, obj.names, obj.values
    ensures c.Valid() && obj.Valid()
    ensures fresh(obj.names) || obj.names == old(obj.names)
    ensures fresh(obj.values) || obj.values == old(obj.values)
    ensures !ok ==> ParseMembers(lib, old(c.Rest()), nesting, old(obj.Members())).Failure?
    ensures ok ==> ParseMembers(lib, old(c.Rest()), nesting, old(obj.Members()))
                   == Close(Obj(obj.Members()), c.Rest(), '}')
    ensures ok && Head(SkipSpace(c.Rest())) == '}' ==> obj.Members() != []
    decreases |c.Rest()|, 1
  {
    hide ParseMembers, ParseValue, SkipSpace, DistinctNames, Close;
    ghost var goal := ParseMembers(lib, c.Rest(), nesting, obj.Members());
    while c.Peek() != '\0'
      invariant c.Valid() && |c.Rest()| <= |old(c.Rest())|
      invariant obj.Valid()
      invariant fresh(obj.names) || obj.names == old(obj.names)
      invariant fresh(obj.values) || obj.values == old(obj.values)
      invariant goal == ParseMembers(lib, c.Rest(), nesting, obj.Members())
      decreases |c.Rest()|
    {
      ok := ParseMemberAt(lib, c, nesting, obj);
      if !ok {
        return;
      }
      SkipSpaceTwice(c.Rest());
      c.SkipWhitespaces();
      if c.Peek() != ',' {
        return true;
      }
      c.Advance(1);
      c.SkipWhitespaces();
    }
    MembersUnfold(lib, c.Rest(), nesting, obj.Members());
    SkipAtEnd(c.Rest());
    return true;
  }

  /** parse_object_value. */
  method ParseObjectAt(lib: Libc, c: Cursor, nesting: nat) returns (r: Option<Json>)
    requires c.Valid()
    modifies c
    ensures c.Valid() && Agrees(r, c.Rest(), ParseObject(lib, old(c.Rest()), nesting))
    decreases |c.Rest()|, 1
  {
    hide ParseMembers, ParseValue, DistinctNames, SkipSpace;
    if c.Peek() != '{' {
      return None;
    }
    var obj := new JsonObject();
    c.Advance(1);
    c.SkipWhitespaces();
    if c.Peek() == '}' {
      c.Advance(1);
      return Some(Obj([]));
    }
    ghost var goal := ParseMembers(lib, c.Rest(), nesting, []);
    assert goal == ParseObject(lib, old(c.Rest()), nesting);
    hide ParseObject;
    var ok := ParseMembersAt(lib, c, nesting, obj);
    if !ok {
      return None;
    }
    ghost var ms := obj.Members();
    c.SkipWhitespaces();
    if c.Peek() != '}' {
      return None;
    }
    assert goal == Success(Obj(ms), c.Rest()[1..]);
    var members := Trimmed(obj);
    c.Advance(1);
    return Some(Obj(members));
  }

  /** The finished object, its arrays cut to their size. */
  method Trimmed(obj: JsonObject) returns (members: seq<Member>)
    requires obj.Valid() && obj.Members() != []
    modifies obj
    ensures members == old(obj.Members())
  {
    var trimmed := obj.Resize(obj.count);
    assert trimmed;
    members := obj.GetMembers();
  }

  /** json_parse_string. */
  method ParseTextAt(lib: Libc, t: Text) returns (r: Option<Json>)
    ensures r.Some? == ParseText(lib, t).Success?
    ensures r.Some? ==> r.value == ParseText(lib, t).value
  {
    hide ParseValue;
    var c := new Cursor(t);
    if At(t, 0) as int == 0xEF && At(t, 1) as int == 0xBB && At(t, 2) as int == 0xBF {
      c.Advance(3);
    }
    assert t[0..] == t;
    r := ParseValueAt(lib, c, 0);
  }
}
