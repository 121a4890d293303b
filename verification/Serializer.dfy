/** json_serialize_to_buffer_r and its callers (parson.c:858-1083 and 1480-1557). */
module Serializer {
  import opened Bytes
  import opened StringLaws
  import opened Json

  // ----- The text a value serialises to

  /** append_indent. */
  function Indent(level: nat): Text {
    if level == 0 then [] else "    " + Indent(level - 1)
  }

  function When(b: bool, t: Text): Text {
    if b then t else []
  }

  /** The text json_serialize_to_buffer_r writes. */
  function Serialize(lib: Libc, v: Json, level: nat, pretty: bool): (t: Text)
    decreases v, 0
  {
    match v
    case Null => "null"
    case Bool(b) => if b then "true" else "false"
    case Num(n) => lib.sprintf(n)
    case Str(s) => SerializeString(s)
    case Arr(items) => Container("[", ItemTexts(lib, items, 0, level + 1, pretty), level, pretty, "]")
    case Obj(ms) => Container("{", MemberTexts(lib, ms, 0, level + 1, pretty), level, pretty, "}")
  }

  /** The entries of an array from the `i`-th on. */
  function ItemTexts(lib: Libc, items: seq<Json>, i: nat, level: nat, pretty: bool): (texts: seq<Text>)
    requires i <= |items|
    ensures |texts| == |items| - i
    decreases items, |items| - i
  {
    if i == |items| then []
    else [Serialize(lib, items[i], level, pretty)] + ItemTexts(lib, items, i + 1, level, pretty)
  }

  /** What an object entry puts before its value. */
  function NamePart(name: CStr, pretty: bool): Text {
    SerializeString(name) + (":" + When(pretty, " "))
  }

  /** The entries of an object from the `i`-th on. */
  function MemberTexts(lib: Libc, ms: seq<Member>, i: nat, level: nat, pretty: bool): (texts: seq<Text>)
    requires i <= |ms|
    ensures |texts| == |ms| - i
    decreases ms, |ms| - i
  {
    if i == |ms| then []
    else
      [NamePart(ms[i].name, pretty) + Serialize(lib, ValueNamed(ms, i), level, pretty)]
      + MemberTexts(lib, ms, i + 1, level, pretty)
  }

  function Container(open: Text, texts: seq<Text>, level: nat, pretty: bool, close: Text): Text {
    open + When(texts != [] && pretty, "\n") + Entries(texts, level, pretty)
    + When(texts != [] && pretty, Indent(level)) + close
  }

  /** The loop over the entries: indentation, entry, comma except after the last, line break. */
  function Entries(texts: seq<Text>, level: nat, pretty: bool): Text {
    if texts == [] then []
    else Entry(texts, level, pretty) + Entries(texts[1..], level, pretty)
  }

  function Entry(texts: seq<Text>, level: nat, pretty: bool): Text
    requires texts != []
  {
    When(pretty, Indent(level + 1)) + texts[0] + When(|texts| > 1, ",") + When(pretty, "\n")
  }
}
