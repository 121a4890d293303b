/** json_serialize_to_buffer_r on its output buffer, and the sizing pass that runs without one. */
module SerializerBuffer {
  import opened Bytes
  import opened Json
  import opened StringLaws
  import opened Serializer

  /** From `at` on the buffer holds `text`; bytes before it, and beyond the one after it, are as they were. */
  ghost predicate Filled(now: seq<byte>, was: seq<byte>, at: nat, text: Text) {
    && at + |text| < |was| == |now|
    && now[..at + |text|] == was[..at] + text
    && now[at + |text| + 1..] == was[at + |text| + 1..]
  }

  /** Filled, with the terminator behind the text. */
  ghost predicate Stored(now: seq<byte>, was: seq<byte>, at: nat, text: Text) {
    Filled(now, was, at, text) && now[at + |text|] == '\0'
  }

  ghost function Contents(buf: array?<byte>): seq<byte>
    reads if buf == null then {} else {buf}
  {
    if buf == null then [] else buf[..]
  }

  ghost function Frame(buf: array?<byte>): set<object> {
    if buf == null then {} else {buf}
  }

  lemma FilledMore(now: seq<byte>, mid: seq<byte>, was: seq<byte>, at: nat, a: Text, b: Text)
    requires Filled(mid, was, at, a) && Filled(now, mid, at + |a|, b)
    ensures Filled(now, was, at, a + b)
  {
    assert was[..at] + (a + b) == (was[..at] + a) + b;
    var k := at + |a| + |b| + 1;
    assert mid[k..] == mid[at + |a| + 1..][|b|..];
    assert was[k..] == was[at + |a| + 1..][|b|..];
  }

  /** sprintf("%s", text). */
  method Sprintf(buf: array<byte>, at: nat, text: CStr) returns (written: nat)
    requires at + |text| < buf.Length
    modifies buf
    ensures written == |text|
    ensures Stored(buf[..], old(buf[..]), at, text)
  {
    ghost var was := buf[..];
    for i := 0 to |text|
      invariant buf[..] == was[..at] + text[..i] + was[at + i..]
    {
      buf[at + i] := text[i];
    }
    buf[at + |text|] := '\0';
    written := |text|;
    assert text[..|text|] == text;
  }

  /** APPEND_STRING: `done` is what has been written from `base` on. */
  method AppendString(buf: array?<byte>, text: CStr, pos: nat, ghost was: seq<byte>, ghost base: nat, ghost done: Text)
    returns (written: nat)
    requires pos == base + |done|
    requires buf != null ==> Filled(Contents(buf), was, base, done) && pos + |text| < buf.Length
    modifies Frame(buf)
    ensures written == |text|
    ensures buf != null ==> Stored(Contents(buf), was, base, done + text)
  {
    if buf == null {
      return |text|;
    }
    ghost var mid := buf[..];
    written := Sprintf(buf, pos, text);
    FilledMore(buf[..], mid, was, base, done, text);
  }

  lemma {:induction false} IndentSnoc(level: nat)
    ensures Indent(level) + "    " == Indent(level + 1)
  {
    if level > 0 {
      IndentSnoc(level - 1);
      assert Indent(level) + "    " == "    " + (Indent(level - 1) + "    ");
    }
  }

  lemma {:induction false} IndentLength(level: nat)
    ensures |Indent(level)| == 4 * level
  {
    if level > 0 {
      IndentLength(level - 1);
    }
  }

  /** append_indent. */
  method AppendIndent(buf: array?<byte>, level: nat, pos: nat, ghost was: seq<byte>, ghost base: nat, ghost done: Text)
    returns (written: nat)
    requires pos == base + |done|
    requires buf != null ==> Filled(Contents(buf), was, base, done) && pos + |Indent(level)| < buf.Length
    modifies Frame(buf)
    ensures written == |Indent(level)|
    ensures buf != null ==> Filled(Contents(buf), was, base, done + Indent(level))
  {
    written := 0;
    assert done + [] == done;
    for i := 0 to level
      invariant written == |Indent(i)|
      invariant buf != null ==> Filled(Contents(buf), was, base, done + Indent(i))
    {
      IndentSnoc(i);
      IndentLength(i);
      IndentLength(level);
      assert (done + Indent(i)) + "    " == done + Indent(i + 1);
      var w := AppendString(buf, "    ", pos + written, was, base, done + Indent(i));
      written := written + w;
    }
  }

  lemma {:induction false} EscapeSnoc(s: Text, c: byte)
    ensures EscapeAll(s + [c]) == EscapeAll(s) + EscapeByte(c)
  {
    hide EscapeByte;
    if s == [] {
      assert s + [c] == [c] && EscapeAll([c]) == EscapeByte(c) + EscapeAll([]);
    } else {
      assert (s + [c])[1..] == s[1..] + [c];
      EscapeSnoc(s[1..], c);
    }
  }

  lemma {:induction false} EscapePrefix(s: Text, i: nat)
    requires i < |s|
    ensures EscapeAll(s[..i + 1]) == EscapeAll(s[..i]) + EscapeByte(s[i])
    ensures |EscapeAll(s[..i + 1])| <= |EscapeAll(s)|
    decreases |s| - i
  {
    hide EscapeByte, EscapeAll;
    assert s[..i + 1] == s[..i] + [s[i]];
    EscapeSnoc(s[..i], s[i]);
    if i + 1 < |s| {
      EscapePrefix(s, i + 1);
    } else {
      assert s[..i + 1] == s;
    }
  }

  /** The default case of json_serialize_string: one byte and no terminator. */
  method AppendByte(buf: array?<byte>, c: byte, pos: nat, ghost was: seq<byte>, ghost base: nat, ghost done: Text)
    requires pos == base + |done|
    requires buf != null ==> Filled(Contents(buf), was, base, done) && pos + 1 < buf.Length
    modifies Frame(buf)
    ensures buf != null ==> Filled(Contents(buf), was, base, done + [c])
  {
    if buf != null {
      ghost var mid := buf[..];
      buf[pos] := c;
      FilledMore(buf[..], mid, was, base, done, [c]);
    }
  }

  /** json_serialize_string. */
  method AppendQuoted(buf: array?<byte>, s: CStr, pos: nat, ghost was: seq<byte>, ghost base: nat, ghost done: Text)
    returns (written: nat)
    requires pos == base + |done|
    requires buf != null ==> Filled(Contents(buf), was, base, done) && pos + |SerializeString(s)| < buf.Length
    modifies Frame(buf)
    ensures written == |SerializeString(s)|
    ensures buf != null ==> Stored(Contents(buf), was, base, done + SerializeString(s))
  {
    hide EscapeByte, Filled;
    written := AppendString(buf, "\"", pos, was, base, done);
    ghost var cur: Text := done + "\"";
    for i := 0 to |s|
      invariant cur == done + "\"" + EscapeAll(s[..i])
      invariant written == 1 + |EscapeAll(s[..i])|
      invariant buf != null ==> Filled(Contents(buf), was, base, cur)
    {
      EscapePrefix(s, i);
      var escaped := EscapeByte(s[i]);
      if |escaped| > 1 {
        EscapeHasNoNul(s[i]);
        var w := AppendString(buf, escaped, pos + written, was, base, cur);
        written := written + w;
      } else {
        PlainEscape(s[i]);
        AppendByte(buf, s[i], pos + written, was, base, cur);
        written := written + 1;
      }
      cur := cur + escaped;
    }
    assert s[..|s|] == s;
    var w := AppendString(buf, "\"", pos + written, was, base, cur);
    assert cur + "\"" == done + SerializeString(s);
    written := written + w;
  }

  lemma EscapeHasNoNul(c: byte)
    requires c != '\0'
    ensures '\0' !in EscapeByte(c)
  {
  }

  lemma PlainEscape(c: byte)
    requires |EscapeByte(c)| == 1
    ensures EscapeByte(c) == [c]
  {
  }

  // ----- json_serialize_to_buffer_r

  /** The scratch buffer of the sizing pass; the writing pass has none. */
  ghost predicate ScratchReady(buf: array?<byte>, numBuf: array?<byte>) {
    if buf == null then numBuf != null && numBuf.Length == NUM_BUF_SIZE else numBuf == null
  }

  /** The text of an entry, in the order its pieces are appended. */
  lemma EntryPieces(texts: seq<Text>, level: nat, pretty: bool, done: Text)
    requires texts != []
    ensures done + Entry(texts, level, pretty)
         == (((done + When(pretty, Indent(level + 1))) + texts[0]) + When(|texts| > 1, ",")) + When(pretty, "\n")
  {
  }

  /** JSONArray, JSONObject, JSONString, JSONBoolean, JSONNumber and JSONNull cases. */
  method SerializeToBufferR(lib: Libc, v: Json, buf: array?<byte>, pos: nat, level: nat, pretty: bool,
                            numBuf: array?<byte>,
                            ghost was: seq<byte>, ghost base: nat, ghost done: Text)
    returns (written: nat)
    requires pos == base + |done| && ScratchReady(buf, numBuf)
    requires buf != null ==>
               Filled(Contents(buf), was, base, done) && pos + |Serialize(lib, v, level, pretty)| < buf.Length
    modifies Frame(buf), Frame(numBuf)
    ensures written == |Serialize(lib, v, level, pretty)|
    ensures buf != null ==> Stored(Contents(buf), was, base, done + Serialize(lib, v, level, pretty))
    decreases v, 0
  {
    match v
    case Null => written := AppendString(buf, "null", pos, was, base, done);
    case Bool(b) =>
      if b {
        written := AppendString(buf, "true", pos, was, base, done);
      } else {
        written := AppendString(buf, "false", pos, was, base, done);
      }
    case Num(n) =>
      if buf == null {
        written := Sprintf(numBuf, 0, lib.sprintf(n));
      } else {
        written := AppendString(buf, lib.sprintf(n), pos, was, base, done);
      }
    case Str(x) => written := AppendQuoted(buf, x, pos, was, base, done);
    case Arr(items) => written := SerializeArray(lib, items, buf, pos, level, pretty, numBuf, was, base, done);
    case Obj(ms) => written := SerializeObject(lib, ms, buf, pos, level, pretty, numBuf, was, base, done);
  }

  /** Everything before the first entry. */
  method AppendOpening(buf: array?<byte>, open: CStr, some: bool, pretty: bool, pos: nat,
                       ghost was: seq<byte>, ghost base: nat, ghost done: Text)
    returns (written: nat)
    requires pos == base + |done| && open != []
    requires buf != null ==>
               Filled(Contents(buf), was, base, done) && pos + |open + When(some && pretty, "\n")| < buf.Length
    modifies Frame(buf)
    ensures written == |open + When(some && pretty, "\n")|
    ensures buf != null ==> Filled(Contents(buf), was, base, done + (open + When(some && pretty, "\n")))
  {
    hide Filled;
    written := AppendString(buf, open, pos, was, base, done);
    assert done + (open + []) == done + open;
    if some && pretty {
      var w := AppendString(buf, "\n", pos + written, was, base, done + open);
      written := written + w;
      assert (done + open) + "\n" == done + (open + "\n");
    }
  }

  /** Everything after the last entry. */
  method AppendClosing(buf: array?<byte>, some: bool, level: nat, pretty: bool, close: CStr, pos: nat,
                       ghost was: seq<byte>, ghost base: nat, ghost done: Text)
    returns (written: nat)
    requires pos == base + |done|
    requires buf != null ==>
               && Filled(Contents(buf), was, base, done)
               && pos + |When(some && pretty, Indent(level)) + close| < buf.Length
    modifies Frame(buf)
    ensures written == |When(some && pretty, Indent(level)) + close|
    ensures buf != null ==> Stored(Contents(buf), was, base, done + (When(some && pretty, Indent(level)) + close))
  {
    hide Filled;
    ghost var indent: Text := [];
    written := 0;
    if some && pretty {
      indent := Indent(level);
      written := AppendIndent(buf, level, pos, was, base, done);
    }
    assert done + [] == done;
    var w := AppendString(buf, close, pos + written, was, base, done + indent);
    written := written + w;
    assert (done + indent) + close == done + (indent + close);
  }

  /** The comma and the line break behind an entry. */
  method AppendSeparator(buf: array?<byte>, more: bool, pretty: bool, pos: nat,
                         ghost was: seq<byte>, ghost base: nat, ghost done: Text)
    returns (written: nat)
    requires pos == base + |done|
    requires buf != null ==>
               Filled(Contents(buf), was, base, done) && pos + |When(more, ",") + When(pretty, "\n")| < buf.Length
    modifies Frame(buf)
    ensures written == |When(more, ",") + When(pretty, "\n")|
    ensures buf != null ==> Filled(Contents(buf), was, base, (done + When(more, ",")) + When(pretty, "\n"))
  {
    hide Filled;
    written := 0;
    ghost var cur := done;
    assert done + [] == done;
    if more {
      written := AppendString(buf, ",", pos, was, base, done);
      cur := done + ",";
    }
    assert cur + [] == cur;
    if pretty {
      var w := AppendString(buf, "\n", pos + written, was, base, cur);
      written := written + w;
    }
  }

  lemma EntryFits(texts: seq<Text>, level: nat, pretty: bool)
    requires texts != []
    ensures |Entry(texts, level, pretty)|
         == |When(pretty, Indent(level + 1))| + |texts[0]| + |When(|texts| > 1, ",") + When(pretty, "\n")|
  {
  }

  /** One turn of the array loop. */
  method SerializeItem(lib: Libc, items: seq<Json>, i: nat, buf: array?<byte>, pos: nat, level: nat, pretty: bool,
                       numBuf: array?<byte>, ghost was: seq<byte>, ghost base: nat, ghost done: Text)
    returns (written: nat)
    requires i < |items| && pos == base + |done| && ScratchReady(buf, numBuf)
    requires buf != null ==>
               && Filled(Contents(buf), was, base, done)
               && pos + |Entry(ItemTexts(lib, items, i, level + 1, pretty), level, pretty)| < buf.Length
    modifies Frame(buf), Frame(numBuf)
    ensures written == |Entry(ItemTexts(lib, items, i, level + 1, pretty), level, pretty)|
    ensures buf != null ==>
              Filled(Contents(buf), was, base, done + Entry(ItemTexts(lib, items, i, level + 1, pretty), level, pretty))
    decreases items, |items| - i, 0
  {
    hide Filled, Serialize, Indent, Entry;
    ghost var texts := ItemTexts(lib, items, i, level + 1, pretty);
    EntryPieces(texts, level, pretty, done);
    EntryFits(texts, level, pretty);
    ghost var cur := done;
    assert done + [] == done;
    written := 0;
    if pretty {
      written := AppendIndent(buf, level + 1, pos, was, base, cur);
      cur := cur + Indent(level + 1);
    }
    var w := SerializeToBufferR(lib, items[i], buf, pos + written, level + 1, pretty, numBuf, was, base, cur);
    cur := cur + texts[0];
    written := written + w;
    w := AppendSeparator(buf, i < |items| - 1, pretty, pos + written, was, base, cur);
    written := written + w;
  }

  /** A key, its colon and, when pretty, a blank. */
  method AppendName(buf: array?<byte>, key: CStr, pretty: bool, pos: nat,
                    ghost was: seq<byte>, ghost base: nat, ghost done: Text)
    returns (written: nat)
    requires pos == base + |done|
    requires buf != null ==>
               Filled(Contents(buf), was, base, done) && pos + |NamePart(key, pretty)| < buf.Length
    modifies Frame(buf)
    ensures written == |NamePart(key, pretty)|
    ensures buf != null ==> Filled(Contents(buf), was, base, done + NamePart(key, pretty))
  {
    hide Filled, SerializeString;
    written := AppendQuoted(buf, key, pos, was, base, done);
    ghost var cur := done + SerializeString(key);
    var w := AppendString(buf, ":", pos + written, was, base, cur);
    cur := cur + ":";
    written := written + w;
    if pretty {
      w := AppendString(buf, " ", pos + written, was, base, cur);
      cur := cur + " ";
      written := written + w;
    }
    assert cur == done + NamePart(key, pretty);
  }

  lemma MemberText(lib: Libc, ms: seq<Member>, i: nat, level: nat, pretty: bool, start: Text)
    requires i < |ms|
    ensures var name, value := NamePart(ms[i].name, pretty), Serialize(lib, ValueNamed(ms, i), level, pretty);
            var text := MemberTexts(lib, ms, i, level, pretty)[0];
            |text| == |name| + |value| && start + text == (start + name) + value
  {
    hide Serialize, NamePart, ValueNamed;
  }

  /** One turn of the object loop: the value is looked up again under the key just written. */
  method SerializeMember(lib: Libc, ms: seq<Member>, i: nat, buf: array?<byte>, pos: nat, level: nat, pretty: bool,
                         numBuf: array?<byte>, ghost was: seq<byte>, ghost base: nat, ghost done: Text)
    returns (written: nat)
    requires i < |ms| && pos == base + |done| && ScratchReady(buf, numBuf)
    requires buf != null ==>
               && Filled(Contents(buf), was, base, done)
               && pos + |Entry(MemberTexts(lib, ms, i, level + 1, pretty), level, pretty)| < buf.Length
    modifies Frame(buf), Frame(numBuf)
    ensures written == |Entry(MemberTexts(lib, ms, i, level + 1, pretty), level, pretty)|
    ensures buf != null ==>
              Filled(Contents(buf), was, base, done + Entry(MemberTexts(lib, ms, i, level + 1, pretty), level, pretty))
    decreases ms, |ms| - i, 0
  {
    hide Filled, Serialize, Indent, Entry, NamePart, Lookup, MemberTexts;
    ghost var texts := MemberTexts(lib, ms, i, level + 1, pretty);
    EntryPieces(texts, level, pretty, done);
    EntryFits(texts, level, pretty);
    ghost var cur := done;
    assert done + [] == done;
    written := 0;
    if pretty {
      written := AppendIndent(buf, level + 1, pos, was, base, cur);
      cur := cur + Indent(level + 1);
    }
    MemberText(lib, ms, i, level + 1, pretty, cur);
    var w := AppendName(buf, ms[i].name, pretty, pos + written, was, base, cur);
    written := written + w;
    w := SerializeToBufferR(lib, ValueNamed(ms, i), buf, pos + written, level + 1, pretty, numBuf,
                            was, base, cur + NamePart(ms[i].name, pretty));
    written := written + w;
    w := AppendSeparator(buf, i < |ms| - 1, pretty, pos + written, was, base, cur + texts[0]);
    written := written + w;
  }

  /** A container in the order it is appended. */
  lemma ContainerPieces(open: Text, texts: seq<Text>, level: nat, pretty: bool, close: Text, done: Text)
    ensures var start := open + When(texts != [] && pretty, "\n");
            var end := When(texts != [] && pretty, Indent(level)) + close;
            && done + Container(open, texts, level, pretty, close)
               == ((done + start) + Entries(texts, level, pretty)) + end
            && |Container(open, texts, level, pretty, close)| == |start| + |Entries(texts, level, pretty)| + |end|
  {
    hide Entries, Indent;
  }

  lemma LoopTurns(texts: seq<Text>, level: nat, pretty: bool, cur: Text)
    requires texts != []
    ensures cur + Entries(texts, level, pretty)
         == (cur + Entry(texts, level, pretty)) + Entries(texts[1..], level, pretty)
  {
    hide Entry;
  }

  /** The array loop. */
  method SerializeItems(lib: Libc, items: seq<Json>, buf: array?<byte>, pos: nat, level: nat, pretty: bool,
                        numBuf: array?<byte>, ghost was: seq<byte>, ghost base: nat, ghost done: Text)
    returns (written: nat)
    requires pos == base + |done| && ScratchReady(buf, numBuf)
    requires buf != null ==>
               && Filled(Contents(buf), was, base, done)
               && pos + |Entries(ItemTexts(lib, items, 0, level + 1, pretty), level, pretty)| < buf.Length
    modifies Frame(buf), Frame(numBuf)
    ensures written == |Entries(ItemTexts(lib, items, 0, level + 1, pretty), level, pretty)|
    ensures buf != null ==>
              Filled(Contents(buf), was, base,
                     done + Entries(ItemTexts(lib, items, 0, level + 1, pretty), level, pretty))
    decreases items, |items| + 1, 0
  {
    hide Filled, Entries, Entry, Serialize;
    ghost var texts, cur := ItemTexts(lib, items, 0, level + 1, pretty), done;
    ghost var total := done + Entries(texts, level, pretty);
    written := 0;
    for i := 0 to |items|
      invariant texts == ItemTexts(lib, items, i, level + 1, pretty)
      invariant total == cur + Entries(texts, level, pretty)
      invariant pos + written == base + |cur|
      invariant buf != null ==> Filled(Contents(buf), was, base, cur)
    {
      LoopTurns(texts, level, pretty, cur);
      var w := SerializeItem(lib, items, i, buf, pos + written, level, pretty, numBuf, was, base, cur);
      cur := cur + Entry(texts, level, pretty);
      texts := texts[1..];
      written := written + w;
    }
    NoEntries(level, pretty, cur);
  }

  lemma NoEntries(level: nat, pretty: bool, cur: Text)
    ensures cur + Entries([], level, pretty) == cur
  {
  }

  /** Case JSONArray. */
  method SerializeArray(lib: Libc, items: seq<Json>, buf: array?<byte>, pos: nat, level: nat, pretty: bool,
                        numBuf: array?<byte>, ghost was: seq<byte>, ghost base: nat, ghost done: Text)
    returns (written: nat)
    requires pos == base + |done| && ScratchReady(buf, numBuf)
    requires buf != null ==>
               && Filled(Contents(buf), was, base, done)
               && pos + |Serialize(lib, Arr(items), level, pretty)| < buf.Length
    modifies Frame(buf), Frame(numBuf)
    ensures written == |Serialize(lib, Arr(items), level, pretty)|
    ensures buf != null ==> Stored(Contents(buf), was, base, done + Serialize(lib, Arr(items), level, pretty))
    decreases items, |items| + 2, 0
  {
    hide Filled, Entries, Container, ItemTexts, Indent;
    ghost var texts := ItemTexts(lib, items, 0, level + 1, pretty);
    ContainerPieces("[", texts, level, pretty, "]", done);
    written := AppendOpening(buf, "[", items != [], pretty, pos, was, base, done);
    ghost var cur := done + ("[" + When(items != [] && pretty, "\n"));
    var w := SerializeItems(lib, items, buf, pos + written, level, pretty, numBuf, was, base, cur);
    written := written + w;
    cur := cur + Entries(texts, level, pretty);
    w := AppendClosing(buf, items != [], level, pretty, "]", pos + written, was, base, cur);
    written := written + w;
  }

  /** The object loop. */
  method SerializeMembers(lib: Libc, ms: seq<Member>, buf: array?<byte>, pos: nat, level: nat, pretty: bool,
                          numBuf: array?<byte>, ghost was: seq<byte>, ghost base: nat, ghost done: Text)
    returns (written: nat)
    requires pos == base + |done| && ScratchReady(buf, numBuf)
    requires buf != null ==>
               && Filled(Contents(buf), was, base, done)
               && pos + |Entries(MemberTexts(lib, ms, 0, level + 1, pretty), level, pretty)| < buf.Length
    modifies Frame(buf), Frame(numBuf)
    ensures written == |Entries(MemberTexts(lib, ms, 0, level + 1, pretty), level, pretty)|
    ensures buf != null ==>
              Filled(Contents(buf), was, base,
                     done + Entries(MemberTexts(lib, ms, 0, level + 1, pretty), level, pretty))
    decreases ms, |ms| + 1, 0
  {
    hide Filled, Entries, Entry, Serialize, NamePart;
    ghost var texts, cur := MemberTexts(lib, ms, 0, level + 1, pretty), done;
    ghost var total := done + Entries(texts, level, pretty);
    written := 0;
    for i := 0 to |ms|
      invariant texts == MemberTexts(lib, ms, i, level + 1, pretty)
      invariant total == cur + Entries(texts, level, pretty)
      invariant pos + written == base + |cur|
      invariant buf != null ==> Filled(Contents(buf), was, base, cur)
    {
      LoopTurns(texts, level, pretty, cur);
      var w := SerializeMember(lib, ms, i, buf, pos + written, level, pretty, numBuf, was, base, cur);
      cur := cur + Entry(texts, level, pretty);
      texts := texts[1..];
      written := written + w;
    }
    NoEntries(level, pretty, cur);
  }

  /** Case JSONObject. */
  method SerializeObject(lib: Libc, ms: seq<Member>, buf: array?<byte>, pos: nat, level: nat, pretty: bool,
                         numBuf: array?<byte>, ghost was: seq<byte>, ghost base: nat, ghost done: Text)
    returns (written: nat)
    requires pos == base + |done| && ScratchReady(buf, numBuf)
    requires buf != null ==>
               && Filled(Contents(buf), was, base, done)
               && pos + |Serialize(lib, Obj(ms), level, pretty)| < buf.Length
    modifies Frame(buf), Frame(numBuf)
    ensures written == |Serialize(lib, Obj(ms), level, pretty)|
    ensures buf != null ==> Stored(Contents(buf), was, base, done + Serialize(lib, Obj(ms), level, pretty))
    decreases ms, |ms| + 2, 0
  {
    hide Filled, Entries, Container, MemberTexts, Indent;
    ghost var texts := MemberTexts(lib, ms, 0, level + 1, pretty);
    ContainerPieces("{", texts, level, pretty, "}", done);
    written := AppendOpening(buf, "{", ms != [], pretty, pos, was, base, done);
    ghost var cur := done + ("{" + When(ms != [] && pretty, "\n"));
    var w := SerializeMembers(lib, ms, buf, pos + written, level, pretty, numBuf, was, base, cur);
    written := written + w;
    cur := cur + Entries(texts, level, pretty);
    w := AppendClosing(buf, ms != [], level, pretty, "}", pos + written, was, base, cur);
    written := written + w;
  }

  // ----- The callers

  /** json_serialization_size and json_serialization_size_pretty: the pass without a buffer. */
  method SerializationSize(lib: Libc, v: Json, pretty: bool) returns (size: nat)
    ensures size == |Serialize(lib, v, 0, pretty)| + 1
  {
    hide Serialize;
    var numBuf := new byte[NUM_BUF_SIZE];
    var res := SerializeToBufferR(lib, v, null, 0, 0, pretty, numBuf, [], 0, []);
    size := res + 1;
  }

  /** json_serialize_to_buffer and json_serialize_to_buffer_pretty. */
  method SerializeToBuffer(lib: Libc, v: Json, buf: array<byte>, bufSize: nat, pretty: bool) returns (ok: bool)
    requires bufSize <= buf.Length
    modifies buf
    ensures ok == (|Serialize(lib, v, 0, pretty)| < bufSize)
    ensures ok ==> Stored(buf[..], old(buf[..]), 0, Serialize(lib, v, 0, pretty))
    ensures !ok ==> buf[..] == old(buf[..])
  {
    hide Serialize;
    var needed := SerializationSize(lib, v, pretty);
    if bufSize < needed {
      return false;
    }
    ghost var was := buf[..];
    assert was[..0] + [] == [] && was[0..] == was && buf[0 + 0 + 1..] == was[1..];
    var written := SerializeToBufferR(lib, v, buf, 0, 0, pretty, null, was, 0, []);
    assert [] + Serialize(lib, v, 0, pretty) == Serialize(lib, v, 0, pretty);
    return true;
  }

  /** json_serialize_to_string and json_serialize_to_string_pretty: a buffer of exactly the size asked for. */
  method SerializeToString(lib: Libc, v: Json, pretty: bool) returns (buf: array<byte>)
    ensures fresh(buf) && buf[..] == Serialize(lib, v, 0, pretty) + ['\0']
  {
    hide Serialize;
    var size := SerializationSize(lib, v, pretty);
    buf := new byte[size];
    var ok := SerializeToBuffer(lib, v, buf, size, pretty);
    ghost var text := Serialize(lib, v, 0, pretty);
    assert buf[..|text|] == text;
    assert buf[..] == buf[..|text|] + [buf[|text|]];
  }
}
