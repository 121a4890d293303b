/** JSON values as owned trees, and the libc number routines they are read and printed with. */
module Json {
  import opened Bytes

  /** A finite double: its sign bit and its magnitude, so that 0 and -0 differ. */
  datatype Number = Number(negative: bool, magnitude: real) {
    function Value(): real {
      if negative then -magnitude else magnitude
    }
  }

  datatype Member = Member(name: CStr, value: Json)

  datatype Json =
    | Null
    | Bool(b: bool)
    | Num(number: Number)
    | Str(s: CStr)
    | Arr(items: seq<Json>)
    | Obj(members: seq<Member>)

  const MAX_NESTING: nat := 2048

  /** json_object_getn_value: the value of the first member with that name. */
  function Lookup(ms: seq<Member>, name: Text): (r: Option<Json>)
    ensures r.Some? ==> exists i :: 0 <= i < |ms| && ms[i].value == r.value
  {
    if ms == [] then None
    else if ms[0].name == name then Some(ms[0].value)
    else Lookup(ms[1..], name)
  }

  ghost predicate HasName(ms: seq<Member>, name: Text) {
    exists i :: 0 <= i < |ms| && ms[i].name == name
  }

  ghost predicate DistinctNames(ms: seq<Member>) {
    forall i, j :: 0 <= i < j < |ms| ==> ms[i].name != ms[j].name
  }

  /** Every object in the tree has pairwise distinct names. */
  ghost predicate WellFormed(v: Json) {
    match v
    case Arr(items) => forall i :: 0 <= i < |items| ==> WellFormed(items[i])
    case Obj(ms) => DistinctNames(ms) && forall i :: 0 <= i < |ms| ==> WellFormed(ms[i].value)
    case _ => true
  }

  /** With `nesting` containers above it, no value of the tree is under more than MAX_NESTING. */
  ghost predicate Fits(v: Json, nesting: nat) {
    && nesting <= MAX_NESTING
    && match v
       case Arr(items) => forall i :: 0 <= i < |items| ==> Fits(items[i], nesting + 1)
       case Obj(ms) => forall i :: 0 <= i < |ms| ==> Fits(ms[i].value, nesting + 1)
       case _ => true
  }

  lemma {:induction false} LookupNone(ms: seq<Member>, name: Text)
    ensures Lookup(ms, name).None? <==> !HasName(ms, name)
  {
    if ms != [] {
      LookupNone(ms[1..], name);
      if HasName(ms, name) {
        var i :| 0 <= i < |ms| && ms[i].name == name;
        assert i > 0 ==> ms[1..][i - 1].name == name;
      } else {
        assert forall i :: 0 <= i < |ms| - 1 ==> ms[1..][i] == ms[i + 1];
      }
    }
  }

  lemma {:induction false} LookupAt(ms: seq<Member>, i: nat)
    requires i < |ms| && DistinctNames(ms)
    ensures Lookup(ms, ms[i].name) == Some(ms[i].value)
  {
    if i > 0 {
      LookupAt(ms[1..], i - 1);
    }
  }

  /** The value an object is asked for under its own `i`-th name: the loops over members look each name up again. */
  function ValueNamed(ms: seq<Member>, i: nat): (v: Json)
    requires i < |ms|
    ensures exists j :: 0 <= j < |ms| && ms[j].value == v
  {
    match Lookup(ms, ms[i].name)
    case Some(v) => v
    case None => LookupNone(ms, ms[i].name); assert false; Null
  }

  // ----- libc

  /** What `strtod` reports: bytes read, errno still 0, and the value (None for inf and nan). */
  datatype Reading = Reading(consumed: nat, inRange: bool, value: Option<Number>)

  /** `strtod`, and `sprintf` with FLOAT_FORMAT. */
  datatype LibcFns = Libc(strtod: Text -> Reading, sprintf: Number -> CStr)

  const NUM_BUF_SIZE: nat := 64

  /** strtod reads no further than the text, and a printed number leaves room in num_buf. */
  type Libc = l: LibcFns |
    && (forall t :: l.strtod(t).consumed <= |t|)
    && (forall n :: |l.sprintf(n)| < NUM_BUF_SIZE)
    ghost witness Libc(t => Reading(0, true, None), n => [])

  /** is_decimal: no superfluous leading zero and no hexadecimal. `strchr` also finds the terminator. */
  predicate IsDecimal(t: Text, length: nat)
    requires length <= |t|
  {
    && !(length > 1 && t[0] == '0' && t[1] != '.')
    && !(length > 2 && t[0] == '-' && t[1] == '0' && t[2] != '.')
    && forall i :: 0 <= i < length ==> t[i] !in {'x', 'X', '\0'}
  }

  /** The bytes that can follow a number in serialised text. */
  predicate EndsNumber(c: byte) {
    c == '\0' || c == ',' || c == ']' || c == '}' || IsSpace(c)
  }

  predicate StartsNumber(c: byte) {
    c == '-' || '0' <= c <= '9'
  }

  predicate MinusOrDigit(c: byte) {
    c in "-0123456789"
  }

  /** A numeral the parser takes: behind an optional minus a zero that comes first is last or stands before the point,
      and nothing is hexadecimal. */
  predicate PlainNumeral(t: Text) {
    var m := if Head(t) == '-' then 1 else 0;
    && MinusOrDigit(Head(t))
    && (m < |t| && t[m] == '0' ==> m + 1 == |t| || t[m + 1] == '.')
    && 'x' !in t && 'X' !in t && '\0' !in t
  }

  /** parse_value turns to parse_number_value, and is_decimal lets `n` bytes through, exactly for plain numerals. */
  lemma PlainIff(t: Text, n: nat)
    requires n <= |t|
    ensures StartsNumber(Head(t[..n])) && IsDecimal(t, n) <==> PlainNumeral(t[..n])
    ensures StartsNumber(Head(t)) <==> MinusOrDigit(Head(t))
    ensures t[..|t|] == t
  {
  }

  /** `strtod` reads the text as the number, and no further, whatever can follow a number. */
  ghost predicate ReadsAs(lib: Libc, text: Text, n: Number) {
    && PlainNumeral(text)
    && forall rest: Text :: EndsNumber(Head(rest)) ==> lib.strtod(text + rest) == Reading(|text|, true, Some(n))
  }

  /** `strtod` reads the whole text alike, whatever can follow a number behind it. */
  ghost predicate ReadWhole(lib: Libc, text: Text) {
    && lib.strtod(text).consumed == |text|
    && forall rest: Text :: EndsNumber(Head(rest)) ==> lib.strtod(text + rest) == lib.strtod(text)
  }

  lemma ReadsAsWhole(lib: Libc, text: Text, n: Number)
    requires ReadsAs(lib, text, n)
    ensures ReadWhole(lib, text) && lib.strtod(text) == Reading(|text|, true, Some(n))
    ensures PlainNumeral(text) && MinusOrDigit(Head(text))
  {
    assert text + [] == text && EndsNumber(Head([]));
  }

  /** Reading what was printed gives the same double, and stops where the printed text stops. */
  ghost predicate PrintsBack(lib: Libc, n: Number) {
    ReadsAs(lib, lib.sprintf(n), n)
  }

  ghost predicate NumbersPrintBack(lib: Libc, v: Json) {
    match v
    case Num(n) => PrintsBack(lib, n)
    case Arr(items) => forall i :: 0 <= i < |items| ==> NumbersPrintBack(lib, items[i])
    case Obj(ms) => forall i :: 0 <= i < |ms| ==> NumbersPrintBack(lib, ms[i].value)
    case _ => true
  }
}
