/** The recursive-descent parser (parson.c:677-856), as functions of the text at the cursor. */
module Parser {
  import opened Bytes
  import opened StringCodec
  import opened Json

  datatype Parse<+T> = Failure | Success(value: T, rest: Text)

  /** parse_boolean_value. */
  function ParseBoolean(t: Text): (r: Parse<Json>)
    ensures r.Success? ==> |r.rest| <= |t|
  {
    if "true" <= t then Success(Bool(true), t[4..])
    else if "false" <= t then Success(Bool(false), t[5..])
    else Failure
  }

  /** parse_null_value. */
  function ParseNull(t: Text): (r: Parse<Json>)
    ensures r.Success? ==> |r.rest| <= |t|
  {
    if "null" <= t then Success(Null, t[4..]) else Failure
  }

  /** parse_string_value. */
  function ParseString(t: Text): (r: Parse<Json>)
    ensures r.Success? ==> |r.rest| <= |t|
  {
    match GetQuoted(t)
    case None => Failure
    case Some((s, rest)) => Success(Str(s), rest)
  }

  /** parse_number_value; json_value_init_number refuses inf and nan. */
  function ParseNumber(lib: Libc, t: Text): (r: Parse<Json>)
    ensures r.Success? ==> |r.rest| <= |t|
  {
    var reading := lib.strtod(t);
    if !reading.inRange || !IsDecimal(t, reading.consumed) then Failure
    else
      match reading.value
      case None => Failure
      case Some(n) => Success(Num(n), t[reading.consumed..])
  }

  /** parse_value. */
  function ParseValue(lib: Libc, t: Text, nesting: nat): (r: Parse<Json>)
    ensures r.Success? ==> |r.rest| <= |t|
    decreases |t|, 2
  {
    if nesting > MAX_NESTING then Failure
    else
      var t := SkipSpace(t);
      var c := Head(t);
      if c == '{' then ParseObject(lib, t, nesting + 1)
      else if c == '[' then ParseArray(lib, t, nesting + 1)
      else if c == '\"' then ParseString(t)
      else if c == 'f' || c == 't' then ParseBoolean(t)
      else if StartsNumber(c) then ParseNumber(lib, t)
      else if c == 'n' then ParseNull(t)
      else Failure
  }

  /** parse_object_value. */
  function ParseObject(lib: Libc, t: Text, nesting: nat): (r: Parse<Json>)
    ensures r.Success? ==> |r.rest| <= |t|
    decreases |t|, 1
  {
    if Head(t) != '{' then Failure
    else
      var t := SkipSpace(t[1..]);
      if Head(t) == '}' then Success(Obj([]), t[1..]) else ParseMembers(lib, t, nesting, [])
  }

  /** The loop of parse_object_value, with the members added so far. */
  function ParseMembers(lib: Libc, t: Text, nesting: nat, acc: seq<Member>): (r: Parse<Json>)
    ensures r.Success? ==> |r.rest| <= |t|
    decreases |t|, 0
  {
    if Head(t) == '\0' then Failure
    else
      match GetQuoted(t)
      case None => Failure
      case Some((key, t1)) =>
        var t2 := SkipSpace(t1);
        if Head(t2) != ':' then Failure
        else
          match ParseValue(lib, t2[1..], nesting)
          case Failure => Failure
          case Success(v, t3) =>
            if Lookup(acc, key).Some? then Failure
            else
              var t4 := SkipSpace(t3);
              if Head(t4) == ',' then
                ParseMembers(lib, SkipSpace(t4[1..]), nesting, acc + [Member(key, v)])
              else if Head(t4) == '}' then
                Success(Obj(acc + [Member(key, v)]), t4[1..])
              else
                Failure
  }

  /** parse_array_value. */
  function ParseArray(lib: Libc, t: Text, nesting: nat): (r: Parse<Json>)
    ensures r.Success? ==> |r.rest| <= |t|
    decreases |t|, 1
  {
    if Head(t) != '[' then Failure
    else
      var t := SkipSpace(t[1..]);
      if Head(t) == ']' then Success(Arr([]), t[1..]) else ParseElements(lib, t, nesting, [])
  }

  /** The loop of parse_array_value, with the items added so far. */
  function ParseElements(lib: Libc, t: Text, nesting: nat, acc: seq<Json>): (r: Parse<Json>)
    ensures r.Success? ==> |r.rest| <= |t|
    decreases |t|, 3
  {
    if Head(t) == '\0' then Failure
    else
      match ParseValue(lib, t, nesting)
      case Failure => Failure
      case Success(v, t3) =>
        var t4 := SkipSpace(t3);
        if Head(t4) == ',' then ParseElements(lib, SkipSpace(t4[1..]), nesting, acc + [v])
        else if Head(t4) == ']' then Success(Arr(acc + [v]), t4[1..])
        else Failure
  }

  /** json_parse_string: an optional byte order mark, then the first value of the text. */
  function ParseText(lib: Libc, t: Text): Parse<Json> {
    if At(t, 0) as int == 0xEF && At(t, 1) as int == 0xBB && At(t, 2) as int == 0xBF
    then ParseValue(lib, t[3..], 0)
    else ParseValue(lib, t, 0)
  }

  // ----- What the parser guarantees about every tree it returns

  lemma DistinctAppend(acc: seq<Member>, m: Member)
    requires DistinctNames(acc) && Lookup(acc, m.name).None?
    ensures DistinctNames(acc + [m])
  {
    LookupNone(acc, m.name);
  }

  ghost predicate GoodMembers(acc: seq<Member>, nesting: nat) {
    && DistinctNames(acc)
    && forall i :: 0 <= i < |acc| ==> WellFormed(acc[i].value) && Fits(acc[i].value, nesting)
  }

  ghost predicate GoodItems(acc: seq<Json>, nesting: nat) {
    forall i :: 0 <= i < |acc| ==> WellFormed(acc[i]) && Fits(acc[i], nesting)
  }

  /** Parsed objects have distinct names, and nothing is nested deeper than the limit. */
  lemma {:induction false} ParsedValueIsGood(lib: Libc, t: Text, nesting: nat)
    requires ParseValue(lib, t, nesting).Success?
    ensures WellFormed(ParseValue(lib, t, nesting).value) && Fits(ParseValue(lib, t, nesting).value, nesting)
    decreases |t|, 2
  {
    hide ParseNumber, ParseString, ParseBoolean, ParseNull, ParseMembers, ParseElements, SkipSpace;
    var t := SkipSpace(t);
    if Head(t) == '{' {
      var u := SkipSpace(t[1..]);
      if Head(u) != '}' {
        ParsedMembersAreGood(lib, u, nesting + 1, []);
      }
    } else if Head(t) == '[' {
      var u := SkipSpace(t[1..]);
      if Head(u) != ']' {
        ParsedElementsAreGood(lib, u, nesting + 1, []);
      }
    } else {
      ParsedScalarIsGood(lib, t, nesting);
    }
  }

  lemma ParsedScalarIsGood(lib: Libc, t: Text, nesting: nat)
    requires nesting <= MAX_NESTING
    ensures forall r :: r in {ParseNumber(lib, t), ParseString(t), ParseBoolean(t), ParseNull(t)} && r.Success? ==>
              WellFormed(r.value) && Fits(r.value, nesting)
  {
  }

  lemma {:induction false} ParsedMembersAreGood(lib: Libc, t: Text, nesting: nat, acc: seq<Member>)
    requires ParseMembers(lib, t, nesting, acc).Success? && GoodMembers(acc, nesting)
    requires 0 < nesting <= MAX_NESTING + 1
    ensures var v := ParseMembers(lib, t, nesting, acc).value; WellFormed(v) && Fits(v, nesting - 1)
    decreases |t|, 0
  {
    hide ParseValue, SkipSpace, GetQuoted, WellFormed, Fits;
    var (key, t1) := GetQuoted(t).value;
    var t2 := SkipSpace(t1);
    ParsedValueIsGood(lib, t2[1..], nesting);
    var Success(v, t3) := ParseValue(lib, t2[1..], nesting);
    var t4 := SkipSpace(t3);
    DistinctAppend(acc, Member(key, v));
    if Head(t4) == ',' {
      ParsedMembersAreGood(lib, SkipSpace(t4[1..]), nesting, acc + [Member(key, v)]);
    } else {
      GoodObject(acc + [Member(key, v)], nesting);
    }
  }

  lemma GoodObject(ms: seq<Member>, nesting: nat)
    requires GoodMembers(ms, nesting) && 0 < nesting <= MAX_NESTING + 1
    ensures WellFormed(Obj(ms)) && Fits(Obj(ms), nesting - 1)
  {
  }

  lemma {:induction false} ParsedElementsAreGood(lib: Libc, t: Text, nesting: nat, acc: seq<Json>)
    requires ParseElements(lib, t, nesting, acc).Success? && GoodItems(acc, nesting)
    requires 0 < nesting <= MAX_NESTING + 1
    ensures var v := ParseElements(lib, t, nesting, acc).value; WellFormed(v) && Fits(v, nesting - 1)
    decreases |t|, 3
  {
    hide ParseValue, SkipSpace, WellFormed, Fits;
    ParsedValueIsGood(lib, t, nesting);
    var Success(v, t3) := ParseValue(lib, t, nesting);
    var t4 := SkipSpace(t3);
    if Head(t4) == ',' {
      ParsedElementsAreGood(lib, SkipSpace(t4[1..]), nesting, acc + [v]);
    } else {
      GoodArray(acc + [v], nesting);
    }
  }

  lemma GoodArray(items: seq<Json>, nesting: nat)
    requires GoodItems(items, nesting) && 0 < nesting <= MAX_NESTING + 1
    ensures WellFormed(Arr(items)) && Fits(Arr(items), nesting - 1)
  {
  }
}
