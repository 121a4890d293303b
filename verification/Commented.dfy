/** json_parse_string_with_comments (parson.c:1118-1131) on texts of the grammar with comments between their tokens. */
module Commented {
  import opened Bytes
  import opened StringCodec
  import opened StringLaws
  import opened Json
  import opened Decimals
  import opened Grammar
  import opened Parser
  import opened Serializer
  import opened RoundTrip
  import opened Comments
  import opened Cursors
  import ParserCursor

  /** The two calls of remove_comments, one after the other. */
  function RemoveBoth(t: CStr): CStr {
    RemoveComments(RemoveComments(t, "/*", "*/"), "//", "\n")
  }

  /** json_parse_string_with_comments. Unlike json_parse_string it does not skip a byte order mark. */
  function ParseWithComments(lib: Libc, t: CStr): Parse<Json> {
    ParseValue(lib, RemoveBoth(t), 0)
  }

  method ParseWithCommentsAt(lib: Libc, t: CStr) returns (r: Option<Json>)
    ensures r.Some? == ParseWithComments(lib, t).Success?
    ensures r.Some? ==> r.value == ParseWithComments(lib, t).value
  {
    hide ParseValue, RemoveComments;
    var copy := new byte[|t| + 1](i requires 0 <= i <= |t| => if i < |t| then t[i] else '\0');
    assert copy[..|t|] == t;
    RemoveCommentsInPlace(copy, t, "/*", "*/");
    assert copy[|t|..][0] == '\0';
    var u: CStr := copy[..|t|];
    RemoveCommentsInPlace(copy, u, "//", "\n");
    var c := new Cursor(copy[..|t|]);
    assert c.text[0..] == c.text;
    r := ParserCursor.ParseValueAt(lib, c, 0);
  }

  // ----- Tokens pass through both passes

  predicate Plain(t: Text) {
    '\"' !in t && '\\' !in t && '/' !in t && '\0' !in t
  }

  lemma {:induction false} PlainStrip(t: Text, rest: Text, start: Text, end: Text)
    requires Plain(t) && Head(start) == '/' && end != []
    ensures Strip(t + rest, start, end, false, false) == t + Strip(rest, start, end, false, false)
  {
    hide Strip;
    if t == [] {
      assert t + rest == rest;
    } else {
      assert t + rest == [t[0]] + (t[1..] + rest) && t[0] in t;
      StripKept(t + rest, start, end, false, false);
      assert (t + rest)[1..] == t[1..] + rest;
      PlainStrip(t[1..], rest, start, end);
    }
  }

  /** Inside a literal, bytes that neither quote nor escape. */
  lemma {:induction false} InsidePlain(t: Text, rest: Text, start: Text, end: Text)
    requires '\"' !in t && '\\' !in t && start != [] && end != []
    ensures Strip(t + rest, start, end, true, false) == t + Strip(rest, start, end, true, false)
  {
    hide Strip;
    if t == [] {
      assert t + rest == rest;
    } else {
      assert t + rest == [t[0]] + (t[1..] + rest) && t[0] in t;
      StripKept(t + rest, start, end, true, false);
      assert (t + rest)[1..] == t[1..] + rest;
      InsidePlain(t[1..], rest, start, end);
    }
  }

  /** Inside a literal, a backslash and the byte it escapes. */
  lemma InsidePair(c: byte, rest: Text, start: Text, end: Text)
    requires start != [] && end != []
    ensures Strip(['\\', c] + rest, start, end, true, false) == ['\\', c] + Strip(rest, start, end, true, false)
  {
    hide Strip;
    var t := ['\\', c] + rest;
    assert t[1..] == [c] + rest && ([c] + rest)[1..] == rest;
    StripKept(t, start, end, true, false);
    StripKept([c] + rest, start, end, true, true);
  }

  lemma PieceStrip(p: Piece, rest: Text, start: Text, end: Text)
    requires p.Legal() && start != [] && end != []
    ensures Strip(p.Written() + rest, start, end, true, false) == p.Written() + Strip(rest, start, end, true, false)
  {
    hide Strip;
    match p
    case Raw(c) => InsidePlain([c], rest, start, end);
    case Short(c) => InsidePair(c, rest, start, end);
    case Unicode(cp, digits) => UnicodeStrip(cp, digits, rest, start, end);
  }

  lemma UnicodeStrip(cp: nat, digits: Text, rest: Text, start: Text, end: Text)
    requires Unicode(cp, digits).Legal() && start != [] && end != []
    ensures Strip("\\u" + digits + rest, start, end, true, false)
         == "\\u" + digits + Strip(rest, start, end, true, false)
  {
    hide Strip;
    UnitDigits(cp, digits);
    if |digits| == 4 {
      UnitStrip(digits, rest, start, end);
    } else {
      var first, second := digits[..4], digits[6..];
      hide HexDigits;
      UnitStrip(first, "\\u" + second + rest, start, end);
      UnitStrip(second, rest, start, end);
      TwoUnits(first, second, rest);
      TwoUnits(first, second, Strip(rest, start, end, true, false));
    }
  }

  lemma TwoUnits(first: Text, second: Text, rest: Text)
    ensures "\\u" + (first + ("\\u" + second)) + rest == "\\u" + first + ("\\u" + second + rest)
  {
  }

  predicate HexDigits(t: Text) {
    forall i :: 0 <= i < |t| ==> HexCharToInt(t[i]) != -1
  }

  lemma UnitDigits(cp: nat, digits: Text)
    requires Unicode(cp, digits).Legal()
    ensures if |digits| == 4 then HexDigits(digits)
            else
              && |digits| == 10 && HexDigits(digits[..4]) && HexDigits(digits[6..])
              && digits == digits[..4] + ("\\u" + digits[6..])
  {
    hide ParseUtf16Hex, SpellsUnit;
    var t := "u" + digits;
    var units := Utf16Units(cp);
    hide Utf16Units;
    UnitIs(t, 1, units[0]);
    HexRun(t, 1);
    assert forall i :: 0 <= i < 4 ==> digits[i] == t[1 + i];
    if |digits| != 4 {
      UnitIs(t, 7, units[1]);
      HexRun(t, 7);
      assert forall i :: 0 <= i < 4 ==> digits[6..][i] == t[7 + i];
      assert digits[4] == t[5] && digits[5] == t[6];
    }
  }

  lemma HexRun(t: Text, i: nat)
    requires ParseUtf16Hex(t, i).Some?
    ensures i + 4 <= |t| && forall j :: i <= j < i + 4 ==> HexCharToInt(t[j]) != -1
  {
  }

  lemma UnitStrip(digits: Text, rest: Text, start: Text, end: Text)
    requires HexDigits(digits) && start != [] && end != []
    ensures Strip("\\u" + digits + rest, start, end, true, false)
         == "\\u" + digits + Strip(rest, start, end, true, false)
  {
    hide Strip;
    assert '\"' !in digits && '\\' !in digits;
    assert "\\u" + digits + rest == ['\\', 'u'] + (digits + rest);
    InsidePair('u', digits + rest, start, end);
    InsidePlain(digits, rest, start, end);
    assert ['\\', 'u'] + (digits + Strip(rest, start, end, true, false))
        == "\\u" + digits + Strip(rest, start, end, true, false);
  }

  lemma {:induction false} PiecesStrip(pieces: seq<Piece>, rest: Text, start: Text, end: Text)
    requires Legal(pieces) && start != [] && end != []
    ensures Strip(WritePieces(pieces, "\"" + rest), start, end, true, false)
         == WritePieces(pieces, "\"" + Strip(rest, start, end, false, false))
  {
    hide Strip;
    if pieces == [] {
      StripKept("\"" + rest, start, end, true, false);
      assert ("\"" + rest)[1..] == rest;
    } else {
      PieceStrip(pieces[0], WritePieces(pieces[1..], "\"" + rest), start, end);
      PiecesStrip(pieces[1..], rest, start, end);
    }
  }

  /** Nothing in a string literal is taken for a comment. */
  lemma LiteralStrip(pieces: seq<Piece>, rest: Text, start: Text, end: Text)
    requires Legal(pieces) && start != [] && end != []
    ensures Strip(WriteString(pieces, rest), start, end, false, false)
         == WriteString(pieces, Strip(rest, start, end, false, false))
  {
    hide Strip, WritePieces;
    var t := WriteString(pieces, rest);
    StripKept(t, start, end, false, false);
    assert t[1..] == WritePieces(pieces, "\"" + rest);
    PiecesStrip(pieces, rest, start, end);
  }

  // ----- Gaps

  /** Every comment that starts in `t` ends in it, no token is cut off at its end, and reading ends outside a
      literal. */
  predicate Closed(t: Text, start: Text, end: Text, inString: bool, escaped: bool)
    requires start != [] && end != []
    decreases |t|
  {
    if t == [] then !inString && !escaped
    else if OpensComment(t, start, inString, escaped) then
      match Find(t[|start|..], end)
      case None => false
      case Some(k) => Closed(t[|start| + k + |end|..], start, end, false, false)
    else
      !(t < start) && Closed(t[1..], start, end, NextInString(t[0], inString, escaped), NextEscaped(t[0], escaped))
  }

  lemma {:induction false} FindInFront(t: Text, rest: Text, p: Text)
    requires Find(t, p).Some?
    ensures Find(t + rest, p) == Find(t, p)
  {
    if p <= t {
      assert p <= t + rest;
    } else {
      FindInFront(t[1..], rest, p);
      assert (t + rest)[1..] == t[1..] + rest;
      assert |p| <= |t[1..]|;
      assert p <= t + rest ==> p <= t;
    }
  }

  lemma OpensInFront(t: Text, rest: Text, start: Text, inString: bool, escaped: bool)
    requires t != [] && start != [] && (OpensComment(t, start, inString, escaped) || !(t < start))
    ensures OpensComment(t + rest, start, inString, escaped) == OpensComment(t, start, inString, escaped)
    ensures OpensComment(t, start, inString, escaped) ==> |start| <= |t|
  {
    assert start <= t + rest && |t| < |start| ==> t < start by {
      assert forall i :: 0 <= i < |t| ==> (t + rest)[i] == t[i];
    }
    assert start <= t + rest && |start| <= |t| ==> start <= t;
  }

  /** A closed gap is stripped on its own, and reading behind it starts afresh. */
  lemma {:induction false} ClosedStrip(t: Text, rest: Text, start: Text, end: Text, inString: bool, escaped: bool)
    requires start != [] && end != [] && Closed(t, start, end, inString, escaped)
    ensures Strip(t + rest, start, end, inString, escaped)
         == Strip(t, start, end, inString, escaped) + Strip(rest, start, end, false, false)
    decreases |t|
  {
    hide Strip, Find, OpensComment, Blank;
    var u := t + rest;
    if t == [] {
      StripNothing(start, end, inString, escaped);
      assert u == rest && [] + Strip(rest, start, end, false, false) == Strip(rest, start, end, false, false);
    } else {
      OpensInFront(t, rest, start, inString, escaped);
      if OpensComment(t, start, inString, escaped) {
        StripClosedComment(t, rest, start, end, inString, escaped);
        ClosedStrip(t[|start| + Find(t[|start|..], end).value + |end|..], rest, start, end, false, false);
      } else {
        StripKept(u, start, end, inString, escaped);
        StripKept(t, start, end, inString, escaped);
        assert u[0] == t[0] && u[1..] == t[1..] + rest;
        ClosedStrip(t[1..], rest, start, end, NextInString(t[0], inString, escaped), NextEscaped(t[0], escaped));
      }
    }
  }

  /** A comment at the start of `t` that ends in it, with or without more behind. */
  lemma StripClosedComment(t: Text, rest: Text, start: Text, end: Text, inString: bool, escaped: bool)
    requires start != [] && end != [] && t != [] && OpensComment(t, start, inString, escaped)
    requires OpensComment(t + rest, start, inString, escaped) && |start| <= |t| && Find(t[|start|..], end).Some?
    ensures var n := |start| + Find(t[|start|..], end).value + |end|;
            && 0 < n <= |t|
            && Strip(t, start, end, inString, escaped) == Blank(n) + Strip(t[n..], start, end, false, false)
            && Strip(t + rest, start, end, inString, escaped)
               == Blank(n) + Strip(t[n..] + rest, start, end, false, false)
  {
    hide Strip, Find, OpensComment, Blank;
    var u := t + rest;
    FindInFront(t[|start|..], rest, end);
    assert u[|start|..] == t[|start|..] + rest;
    var n, v := StripOpened(t, start, end, inString, escaped);
    var n', v' := StripOpened(u, start, end, inString, escaped);
    assert u[n..] == t[n..] + rest;
  }

  // ----- Documents

  ghost predicate ClosedGap(t: Text, start: Text, end: Text) {
    start != [] && end != [] && Closed(t, start, end, false, false)
  }

  ghost function Pass(start: Text, end: Text): Text -> Text {
    t => if start == [] || end == [] then t else Strip(t, start, end, false, false)
  }

  /** Numerals hold none of the bytes that matter to remove_comments, and literals are those of the grammar. */
  ghost predicate PlainTokens(d: Doc) {
    match d
    case Fixed(_) => true
    case Numeral(text) => Plain(text)
    case Literal(pieces) => Legal(pieces)
    case Array(items, _) => forall i :: 0 <= i < |items| ==> PlainTokens(items[i].value)
    case Object(entries, _) =>
      forall i :: 0 <= i < |entries| ==> Legal(entries[i].name) && PlainTokens(entries[i].item.value)
  }

  /** What DocStrip needs of a document. */
  ghost predicate Strippable(d: Doc, start: Text, end: Text) {
    PlainTokens(d) && AllGaps(d, (t: Text) => ClosedGap(t, start, end))
  }

  lemma StrippableItems(items: seq<Item>, gap: Text, start: Text, end: Text)
    requires Strippable(Array(items, gap), start, end)
    ensures ItemsStrippable(items, start, end) && ClosedGap(gap, start, end)
  {
  }

  ghost predicate ItemsStrippable(items: seq<Item>, start: Text, end: Text) {
    forall i :: 0 <= i < |items| ==>
      && ClosedGap(items[i].before, start, end) && ClosedGap(items[i].after, start, end)
      && Strippable(items[i].value, start, end)
  }

  lemma StrippableEntries(entries: seq<Entry>, gap: Text, start: Text, end: Text)
    requires Strippable(Object(entries, gap), start, end)
    ensures EntriesStrippable(entries, start, end) && ClosedGap(gap, start, end)
  {
    hide Legal;
  }

  ghost predicate EntriesStrippable(entries: seq<Entry>, start: Text, end: Text) {
    forall i :: 0 <= i < |entries| ==>
      && ClosedGap(entries[i].before, start, end) && ClosedGap(entries[i].colon, start, end)
      && ClosedGap(entries[i].item.before, start, end) && ClosedGap(entries[i].item.after, start, end)
      && Legal(entries[i].name) && Strippable(entries[i].item.value, start, end)
  }

  lemma GapStrip(gap: Text, rest: Text, start: Text, end: Text)
    requires ClosedGap(gap, start, end)
    ensures Strip(gap + rest, start, end, false, false)
         == Pass(start, end)(gap) + Strip(rest, start, end, false, false)
  {
    hide Strip, Closed;
    ClosedStrip(gap, rest, start, end, false, false);
  }

  /** One pass over a document strips its gaps, and goes on behind it. */
  lemma {:induction false} DocStrip(d: Doc, rest: Text, start: Text, end: Text)
    requires Strippable(d, start, end) && Head(start) == '/' && end != []
    ensures Strip(Write(d, rest), start, end, false, false)
         == Write(MapGaps(d, Pass(start, end)), Strip(rest, start, end, false, false))
    decreases d, 0
  {
    hide Strip, Pass, ClosedGap, WriteString, WriteItems, WriteEntries, MapItems, MapEntries, Strippable;
    ScalarStrippable(d, start, end);
    match d
    case Fixed(v) => PlainStrip(FixedText(v), rest, start, end);
    case Numeral(text) => PlainStrip(text, rest, start, end);
    case Literal(pieces) => LiteralStrip(pieces, rest, start, end);
    case Array(items, gap) =>
      StrippableItems(items, gap, start, end);
      PlainStrip("]", rest, start, end);
      if items == [] {
        PlainStrip("[", gap + ("]" + rest), start, end);
        GapStrip(gap, "]" + rest, start, end);
      } else {
        PlainStrip("[", WriteItems(items, "]" + rest), start, end);
        ItemsStrip(items, "]" + rest, start, end);
      }
    case Object(entries, gap) =>
      StrippableEntries(entries, gap, start, end);
      PlainStrip("}", rest, start, end);
      if entries == [] {
        PlainStrip("{", gap + ("}" + rest), start, end);
        GapStrip(gap, "}" + rest, start, end);
      } else {
        PlainStrip("{", WriteEntries(entries, "}" + rest), start, end);
        EntriesStrip(entries, "}" + rest, start, end);
      }
  }

  lemma ScalarStrippable(d: Doc, start: Text, end: Text)
    requires Strippable(d, start, end)
    ensures d.Numeral? ==> Plain(d.text)
    ensures d.Literal? ==> Legal(d.pieces)
    ensures d.Fixed? ==> Plain(FixedText(d.value))
  {
  }

  lemma {:induction false} ItemsStrip(items: seq<Item>, tail: Text, start: Text, end: Text)
    requires items != [] && ItemsStrippable(items, start, end) && Head(start) == '/' && end != []
    ensures Strip(WriteItems(items, tail), start, end, false, false)
         == WriteItems(MapItems(items, Pass(start, end)), Strip(tail, start, end, false, false))
    decreases items, 0
  {
    hide Strip, Pass, ClosedGap, Write, MapGaps, Strippable;
    var item, after := items[0], AfterItem(items, tail);
    var mapped := MapItems(items, Pass(start, end));
    GapStrip(item.before, Write(item.value, after), start, end);
    DocStrip(item.value, after, start, end);
    if |items| == 1 {
      GapStrip(item.after, tail, start, end);
    } else {
      GapStrip(item.after, "," + WriteItems(items[1..], tail), start, end);
      PlainStrip(",", WriteItems(items[1..], tail), start, end);
      ItemsStrip(items[1..], tail, start, end);
    }
    assert mapped[1..] == MapItems(items[1..], Pass(start, end));
  }

  lemma NameStrip(e: Entry, rest: Text, start: Text, end: Text)
    requires ClosedGap(e.before, start, end) && ClosedGap(e.colon, start, end) && ClosedGap(e.item.before, start, end)
    requires Legal(e.name) && Head(start) == '/' && end != []
    ensures var p := Pass(start, end);
            Strip(e.before + WriteString(e.name, e.colon + (":" + (e.item.before + rest))), start, end, false, false)
            == p(e.before) + WriteString(e.name, p(e.colon) + (":" + (p(e.item.before)
               + Strip(rest, start, end, false, false))))
  {
    hide Strip, Pass, ClosedGap, WriteString, Legal;
    var value := e.item.before + rest;
    GapStrip(e.before, WriteString(e.name, e.colon + (":" + value)), start, end);
    LiteralStrip(e.name, e.colon + (":" + value), start, end);
    GapStrip(e.colon, ":" + value, start, end);
    PlainStrip(":", value, start, end);
    GapStrip(e.item.before, rest, start, end);
  }

  lemma MapEntriesHead(entries: seq<Entry>, f: Text -> Text)
    requires entries != []
    ensures var e, m := entries[0], MapEntries(entries, f)[0];
            && m.before == f(e.before) && m.name == e.name && m.colon == f(e.colon)
            && m.item.before == f(e.item.before) && m.item.value == MapGaps(e.item.value, f)
            && m.item.after == f(e.item.after)
    ensures MapEntries(entries, f)[1..] == MapEntries(entries[1..], f)
  {
    hide MapGaps;
  }

  lemma {:induction false} EntriesStrip(entries: seq<Entry>, tail: Text, start: Text, end: Text)
    requires entries != [] && EntriesStrippable(entries, start, end) && Head(start) == '/' && end != []
    ensures Strip(WriteEntries(entries, tail), start, end, false, false)
         == WriteEntries(MapEntries(entries, Pass(start, end)), Strip(tail, start, end, false, false))
    decreases entries, 1
  {
    hide Strip, Pass, ClosedGap, Write, WriteString, MapGaps, MapEntries, Strippable, Legal, WriteEntries, AfterEntry;
    var e, after := entries[0], AfterEntry(entries, tail);
    MapEntriesHead(entries, Pass(start, end));
    WriteEntriesIs(entries, tail);
    WriteEntriesIs(MapEntries(entries, Pass(start, end)), Strip(tail, start, end, false, false));
    NameStrip(e, Write(e.item.value, after), start, end);
    DocStrip(e.item.value, after, start, end);
    AfterEntryStrip(entries, tail, start, end);
  }

  lemma {:induction false} AfterEntryStrip(entries: seq<Entry>, tail: Text, start: Text, end: Text)
    requires entries != [] && EntriesStrippable(entries, start, end) && Head(start) == '/' && end != []
    ensures Strip(AfterEntry(entries, tail), start, end, false, false)
         == AfterEntry(MapEntries(entries, Pass(start, end)), Strip(tail, start, end, false, false))
    decreases entries, 0
  {
    hide Strip, Pass, ClosedGap, Write, WriteString, MapGaps, MapEntries, Strippable, Legal, WriteEntries;
    var e := entries[0];
    MapEntriesHead(entries, Pass(start, end));
    if |entries| == 1 {
      GapStrip(e.item.after, tail, start, end);
    } else {
      GapStrip(e.item.after, "," + WriteEntries(entries[1..], tail), start, end);
      PlainStrip(",", WriteEntries(entries[1..], tail), start, end);
      EntriesStrip(entries[1..], tail, start, end);
    }
  }

  // ----- Comments between tokens

  /** Whitespace and comments: both passes find every comment closed, and leave only whitespace. */
  ghost predicate CommentGap(t: Text) {
    && '\0' !in t
    && ClosedGap(t, "/*", "*/")
    && ClosedGap(Pass("/*", "*/")(t), "//", "\n")
    && AllSpace(Pass("//", "\n")(Pass("/*", "*/")(t)))
  }

  lemma SpaceGap(t: Text)
    requires AllSpace(t)
    ensures CommentGap(t) && Pass("/*", "*/")(t) == t && Pass("//", "\n")(t) == t
  {
    hide Strip, Closed;
    SpaceClosed(t, "/*", "*/");
    SpaceClosed(t, "//", "\n");
  }

  lemma {:induction false} SpaceClosed(t: Text, start: Text, end: Text)
    requires AllSpace(t) && Head(start) == '/' && end != []
    ensures Closed(t, start, end, false, false) && Strip(t, start, end, false, false) == t
  {
    if t != [] {
      assert IsSpace(t[0]);
      SpaceClosed(t[1..], start, end);
      assert !OpensComment(t, start, false, false) && !(t < start);
      hide Strip;
      StripKept(t, start, end, false, false);
    }
  }

  lemma {:induction false} ClosedConcat(a: Text, b: Text, start: Text, end: Text, inString: bool, escaped: bool)
    requires start != [] && end != [] && Closed(a, start, end, inString, escaped) && Closed(b, start, end, false, false)
    ensures Closed(a + b, start, end, inString, escaped)
    decreases |a|
  {
    hide Find, OpensComment;
    var t := a + b;
    if a == [] {
      assert t == b;
    } else {
      OpensInFront(a, b, start, inString, escaped);
      if OpensComment(a, start, inString, escaped) {
        FindInFront(a[|start|..], b, end);
        assert t[|start|..] == a[|start|..] + b;
        var n := |start| + Find(a[|start|..], end).value + |end|;
        assert t[n..] == a[n..] + b;
        ClosedConcat(a[n..], b, start, end, false, false);
      } else {
        assert t[0] == a[0] && t[1..] == a[1..] + b;
        assert t < start ==> a < start;
        ClosedConcat(a[1..], b, start, end, NextInString(a[0], inString, escaped), NextEscaped(a[0], escaped));
      }
    }
  }

  /** Gaps one after the other make a gap. */
  lemma GapConcat(a: Text, b: Text)
    requires CommentGap(a) && CommentGap(b)
    ensures CommentGap(a + b)
  {
    hide Strip, Closed;
    var a1, b1 := Pass("/*", "*/")(a), Pass("/*", "*/")(b);
    ClosedStrip(a, b, "/*", "*/", false, false);
    ClosedConcat(a, b, "/*", "*/", false, false);
    ClosedStrip(a1, b1, "//", "\n", false, false);
    ClosedConcat(a1, b1, "//", "\n", false, false);
  }

  lemma OpensAt(t: Text, c: byte)
    requires |t| >= 2
    ensures OpensComment(t, ['/', c], false, false) <==> t[0] == '/' && t[1] == c
  {
  }

  /** One comment and nothing else. */
  lemma WholeComment(t: Text, start: Text, end: Text)
    requires start != [] && end != [] && |start| <= |t| && OpensComment(t, start, false, false)
    requires Find(t[|start|..], end) == Some(|t| - |start| - |end|)
    ensures Closed(t, start, end, false, false) && Strip(t, start, end, false, false) == Blank(|t|)
  {
    hide Strip, Find, Blank, OpensComment;
    var n, u := StripOpened(t, start, end, false, false);
    assert n == |t| && t[n..] == [];
    StripNothing(start, end, false, false);
    assert Blank(n) + [] == Blank(n);
  }

  /** A block comment up to its first end token. */
  lemma BlockGap(body: Text)
    requires '\0' !in body && Find(body + "*/", "*/") == Some(|body|)
    ensures CommentGap("/*" + body + "*/")
  {
    hide Strip, Find, Closed, OpensComment;
    var t := "/*" + body + "*/";
    BlockStarts(body);
    WholeComment(t, "/*", "*/");
    BlankGap(t);
  }

  lemma BlockStarts(body: Text)
    ensures var t := "/*" + body + "*/";
            OpensComment(t, "/*", false, false) && t[2..] == body + "*/" && ('\0' !in body ==> '\0' !in t)
  {
    var t := "/*" + body + "*/";
    assert t[2..] == body + "*/";
    OpensAt(t, '*');
  }

  /** What the first pass blanks is a gap. */
  lemma BlankGap(t: Text)
    requires '\0' !in t && Closed(t, "/*", "*/", false, false) && Strip(t, "/*", "*/", false, false) == Blank(|t|)
    ensures CommentGap(t)
  {
    hide Strip, Closed;
    SpaceGap(Blank(|t|));
  }

  /** `t` ends in a line break, and what the first pass leaves of it as well. */
  lemma {:induction false} KeepsLineEnd(t: Text, inString: bool, escaped: bool)
    requires t != [] && t[|t| - 1] == '\n' && Closed(t, "/*", "*/", inString, escaped)
    ensures var r := Strip(t, "/*", "*/", inString, escaped); |r| == |t| && r[|t| - 1] == '\n'
    decreases |t|
  {
    hide Strip, Find, Blank;
    if OpensComment(t, "/*", inString, escaped) {
      var n, u := StripOpened(t, "/*", "*/", inString, escaped);
      var k := Find(t[2..], "*/").value;
      FindOccurs(t[2..], "*/", 1);
      assert t[n - 1] == t[2..][k + 1];
      KeepsLineEnd(t[n..], false, false);
    } else {
      StripKept(t, "/*", "*/", inString, escaped);
      if |t| > 1 {
        KeepsLineEnd(t[1..], NextInString(t[0], inString, escaped), NextEscaped(t[0], escaped));
      }
    }
  }

  /** A line comment is one for both passes exactly when the first pass, which does not know line comments, closes
      every block comment and string literal it sees in it, and its text does not start with an asterisk. */
  lemma LineGapIff(body: Text)
    requires '\0' !in body && '\n' !in body
    ensures var t := "//" + body + "\n";
            CommentGap(t) <==> Closed(t, "/*", "*/", false, false) && !("*" <= body)
  {
    var t := "//" + body + "\n";
    if Closed(t, "/*", "*/", false, false) {
      if "*" <= body {
        LineHidesBlock(t);
      } else {
        LineLeft(t);
      }
    }
  }

  /** The first pass takes the second slash and the asterisk for the start of a block comment. */
  lemma SlashStays(t: Text)
    requires |t| > 2 && t[..3] == "//*"
    ensures var r := Strip(Strip(t, "/*", "*/", false, false), "//", "\n", false, false);
            r != [] && r[0] == '/'
  {
    hide Strip, Find, Blank, OpensComment;
    var u := t[1..];
    assert t[0] == t[..3][0] && t[1] == t[..3][1] && t[2] == t[..3][2];
    OpensAt(t, '*');
    OpensAt(u, '*');
    StripKept(t, "/*", "*/", false, false);
    var n, v := StripOpened(u, "/*", "*/", false, false);
    var r := Strip(t, "/*", "*/", false, false);
    assert r[0] == '/' && r[1] == ' ';
    OpensAt(r, '/');
    StripKept(r, "//", "\n", false, false);
  }

  lemma LineHidesBlock(t: Text)
    requires |t| > 2 && t[..3] == "//*"
    ensures !CommentGap(t)
  {
    hide Strip, Closed;
    SlashStays(t);
    var r := Strip(Strip(t, "/*", "*/", false, false), "//", "\n", false, false);
    assert !IsSpace(r[0]);
  }

  /** So a text that starts with such a line comment is refused, whatever follows it. */
  lemma StarLineRefused(lib: Libc, t: CStr)
    requires |t| > 2 && t[..3] == "//*"
    ensures ParseWithComments(lib, t).Failure?
  {
    hide Strip, ParseObject, ParseArray;
    SlashStays(t);
    SkipNothing(RemoveBoth(t));
  }

  lemma LineLeft(t: Text)
    requires |t| > 2 && t[..2] == "//" && t[2] != '*' && '\0' !in t
    requires t[|t| - 1] == '\n' && '\n' !in t[..|t| - 1] && Closed(t, "/*", "*/", false, false)
    ensures CommentGap(t)
  {
    hide Strip, Closed, Find, Blank;
    var r := Strip(t, "/*", "*/", false, false);
    assert t[0] == '/' && t[1] == '/';
    StripKept(t, "/*", "*/", false, false);
    StripKept(t[1..], "/*", "*/", false, false);
    assert r[0] == '/' && r[1] == '/';
    KeepsLineEnd(t, false, false);
    StripOnlyBlanks(t, "/*", "*/", false, false);
    forall i | 0 <= i < |r| - 1 ensures r[i] != '\n' {
      assert t[i] == t[..|t| - 1][i];
    }
    LineBlanked(r);
  }

  /** A line comment and nothing else. */
  lemma LineBlanked(r: Text)
    requires |r| > 2 && r[0] == '/' && r[1] == '/' && r[|r| - 1] == '\n'
    requires forall i :: 0 <= i < |r| - 1 ==> r[i] != '\n'
    ensures ClosedGap(r, "//", "\n") && AllSpace(Pass("//", "\n")(r))
  {
    hide Strip, Find, Closed;
    var x := r[2..|r| - 1];
    assert r[2..] == x + "\n";
    FindLineEnd(x);
    OpensAt(r, '/');
    WholeComment(r, "//", "\n");
    assert AllSpace(Blank(|r|));
  }

  lemma {:induction false} FindLineEnd(x: Text)
    requires '\n' !in x
    ensures Find(x + "\n", "\n") == Some(|x|)
  {
    if x == [] {
      assert "\n" <= x + "\n";
    } else {
      assert (x + "\n")[0] == x[0];
      assert (x + "\n")[1..] == x[1..] + "\n";
      FindLineEnd(x[1..]);
    }
  }

  // ----- NULs

  lemma CommentGapNul()
    ensures forall t :: CommentGap(t) ==> '\0' !in t
  {
    hide ClosedGap, Pass;
  }

  lemma PieceHasNoNul(p: Piece)
    requires p.Legal()
    ensures '\0' !in p.Written()
  {
    match p
    case Unicode(cp, digits) =>
      hide HexDigits;
      UnitDigits(cp, digits);
      if |digits| == 4 {
        HexHasNoNul(digits);
      } else {
        HexHasNoNul(digits[..4]);
        HexHasNoNul(digits[6..]);
      }
    case _ =>
  }

  lemma HexHasNoNul(t: Text)
    requires HexDigits(t)
    ensures '\0' !in t
  {
  }

  lemma {:induction false} StringHasNoNul(pieces: seq<Piece>, rest: Text)
    requires Legal(pieces) && '\0' !in rest
    ensures '\0' !in WritePieces(pieces, rest)
  {
    if pieces != [] {
      PieceHasNoNul(pieces[0]);
      StringHasNoNul(pieces[1..], rest);
    }
  }

  lemma {:induction false} WriteHasNoNul(d: Doc, rest: Text)
    requires PlainTokens(d) && AllGaps(d, (t: Text) => '\0' !in t) && '\0' !in rest
    ensures '\0' !in Write(d, rest)
    decreases d, 1
  {
    hide Plain, WritePieces, WriteItems, WriteEntries;
    match d
    case Literal(pieces) => StringHasNoNul(pieces, "\"" + rest);
    case Array(items, _) =>
      if items != [] {
        ItemsHaveNoNul(items, "]" + rest);
      }
    case Object(entries, _) =>
      if entries != [] {
        EntriesHaveNoNul(entries, "}" + rest);
      }
    case Numeral(text) => assert '\0' !in text by { PlainHasNoNul(text); }
    case _ =>
  }

  lemma PlainHasNoNul(t: Text)
    requires Plain(t)
    ensures '\0' !in t
  {
  }

  lemma {:induction false} ItemsHaveNoNul(items: seq<Item>, tail: Text)
    requires items != [] && '\0' !in tail
    requires forall i :: 0 <= i < |items| ==>
               && '\0' !in items[i].before && '\0' !in items[i].after && PlainTokens(items[i].value)
               && AllGaps(items[i].value, (t: Text) => '\0' !in t)
    ensures '\0' !in WriteItems(items, tail)
    decreases items, 0
  {
    hide Write, PlainTokens, AllGaps;
    if |items| > 1 {
      ItemsHaveNoNul(items[1..], tail);
    }
    WriteHasNoNul(items[0].value, AfterItem(items, tail));
  }

  lemma {:induction false} EntriesHaveNoNul(entries: seq<Entry>, tail: Text)
    requires entries != [] && '\0' !in tail
    requires forall i :: 0 <= i < |entries| ==>
               && '\0' !in entries[i].before && '\0' !in entries[i].colon && '\0' !in entries[i].item.before
               && '\0' !in entries[i].item.after && Legal(entries[i].name) && PlainTokens(entries[i].item.value)
               && AllGaps(entries[i].item.value, (t: Text) => '\0' !in t)
    ensures '\0' !in WriteEntries(entries, tail)
    decreases entries, 0
  {
    hide Write, PlainTokens, AllGaps, WritePieces, Legal;
    if |entries| > 1 {
      EntriesHaveNoNul(entries[1..], tail);
    }
    var e := entries[0];
    WriteHasNoNul(e.item.value, AfterEntry(entries, tail));
    var behind := e.colon + (":" + (e.item.before + Write(e.item.value, AfterEntry(entries, tail))));
    StringHasNoNul(e.name, "\"" + behind);
  }

  // ----- Reading commented documents

  lemma {:induction false} MapPlain(d: Doc, f: Text -> Text)
    requires PlainTokens(d)
    ensures PlainTokens(MapGaps(d, f))
  {
    hide MapItems, MapEntries;
    match d
    case Array(items, _) =>
      forall i | 0 <= i < |items| ensures PlainTokens(MapItems(items, f)[i].value) {
        MapItemsAt(items, f, i);
        MapPlain(items[i].value, f);
      }
    case Object(entries, _) =>
      forall i | 0 <= i < |entries|
        ensures Legal(MapEntries(entries, f)[i].name) && PlainTokens(MapEntries(entries, f)[i].item.value)
      {
        MapEntriesAt(entries, f, i);
        MapPlain(entries[i].item.value, f);
      }
    case _ =>
  }

  /** What both passes make of a text. */
  ghost function BothPasses(t: Text): Text {
    Pass("//", "\n")(Pass("/*", "*/")(t))
  }

  lemma RemoveBothIs(t: CStr)
    ensures RemoveBoth(t) == BothPasses(t)
  {
    hide Strip;
  }

  /** A document with comments in its gaps becomes the same document with whitespace there. */
  lemma BothStrip(lib: Libc, d: Doc, rest: Text) returns (bare: Doc)
    requires Tokens(lib, d) && PlainTokens(d) && AllGaps(d, (t: Text) => CommentGap(t))
    ensures BothPasses(Write(d, rest)) == Write(bare, BothPasses(rest))
    ensures Tokens(lib, bare) && Spaced(bare) && Meaning(lib, bare) == Meaning(lib, d)
    ensures NumeralsTaken(lib, bare) == NumeralsTaken(lib, d) && bare.Numeral? == d.Numeral?
  {
    assert forall e: Doc, f: Text -> Text :: MapGaps(e, f).Numeral? == e.Numeral?;
    hide Strip, Closed, AllGaps, AllNumerals, MapGaps, Tokens, Meaning, PlainTokens, Write;
    var p1, p2 := Pass("/*", "*/"), Pass("//", "\n");
    var once := MapGaps(d, p1);
    bare := MapGaps(once, p2);
    GapsWeaken(d, (t: Text) => CommentGap(t), (t: Text) => ClosedGap(t, "/*", "*/"));
    MapGapsAll(d, (t: Text) => CommentGap(t), p1, (t: Text) => ClosedGap(t, "//", "\n") && AllSpace(p2(t)));
    GapsWeaken(once, (t: Text) => ClosedGap(t, "//", "\n") && AllSpace(p2(t)), (t: Text) => ClosedGap(t, "//", "\n"));
    MapGapsAll(once, (t: Text) => ClosedGap(t, "//", "\n") && AllSpace(p2(t)), p2, (t: Text) => AllSpace(t));
    MapPlain(d, p1);
    MapGapsMeans(lib, d, p1);
    MapGapsMeans(lib, once, p2);
    MapGapsNumerals(d, p1, (t: Text) => Taken(lib, t));
    MapGapsNumerals(once, p2, (t: Text) => Taken(lib, t));
    DocStrip(d, rest, "/*", "*/");
    DocStrip(once, p1(rest), "//", "\n");
  }

  /** A text of the grammar with any comments between its tokens is read as the value it stands for, exactly when the
      parser accepts that value; reading stops where the text ends. */
  lemma CommentedRead(lib: Libc, before: Text, d: Doc, rest: Text)
    requires Tokens(lib, d) && PlainTokens(d) && AllGaps(d, (t: Text) => CommentGap(t)) && CommentGap(before)
    requires '\0' !in rest && (d.Numeral? ==> EndsNumber(Head(BothPasses(rest))))
    ensures '\0' !in before + Write(d, rest)
    ensures ParseWithComments(lib, before + Write(d, rest)) == Expected(lib, d, 0, BothPasses(rest))
  {
    hide Strip, Closed, AllGaps, Tokens, Meaning, PlainTokens, Write, ParseValue, RemoveBoth;
    hide NumeralsTaken, Accepted, Spaced, CommentGap, BothPasses;
    CommentGapNul();
    GapsWeaken(d, (t: Text) => CommentGap(t), (t: Text) => '\0' !in t);
    WriteHasNoNul(d, rest);
    RemoveBothIs(before + Write(d, rest));
    var bare := BothStrip(lib, d, rest);
    GapBoth(before, Write(d, rest));
    ParseAfterSpace(lib, BothPasses(before), Write(bare, BothPasses(rest)), 0);
    ParseWritten(lib, bare, 0, BothPasses(rest));
  }

  /** The same for JSON texts of RFC 8259. */
  lemma CommentedRfc(lib: Libc, before: Text, d: Doc, rest: Text)
    requires ReadsNumerals(lib) && Rfc8259(d) && AllGaps(d, (t: Text) => CommentGap(t)) && CommentGap(before)
    requires '\0' !in rest && (d.Numeral? ==> EndsNumber(Head(BothPasses(rest))))
    ensures '\0' !in before + Write(d, rest) && Tokens(lib, d)
    ensures ParseWithComments(lib, before + Write(d, rest))
         == if AllNumerals(d, (t: Text) => Ordinary(lib, t)) && Accepted(Meaning(lib, d), 0)
            then Success(Meaning(lib, d), BothPasses(rest)) else Failure
  {
    hide AllGaps, AllNumerals, Tokens, Meaning, PlainTokens, Rfc8259, Write, ParseWithComments, Accepted, CommentGap;
    hide BothPasses, Ordinary;
    RfcTokens(lib, d);
    RfcTaken(lib, d);
    RfcPlain(d);
    CommentedRead(lib, before, d, rest);
  }

  lemma {:induction false} RfcPlain(d: Doc)
    requires Rfc8259(d)
    ensures PlainTokens(d)
  {
    hide IsNumeral, Legal, Plain;
    match d
    case Numeral(text) =>
      NumeralIsPlain(text);
      BytesArePlain(text);
    case Array(items, _) =>
      forall i | 0 <= i < |items| ensures PlainTokens(items[i].value) {
        RfcPlain(items[i].value);
      }
    case Object(entries, _) =>
      forall i | 0 <= i < |entries| ensures PlainTokens(entries[i].item.value) {
        RfcPlain(entries[i].item.value);
      }
    case _ =>
  }

  lemma BytesArePlain(t: Text)
    requires NumberBytes(t)
    ensures Plain(t)
  {
  }

  lemma GapBoth(gap: Text, rest: Text)
    requires CommentGap(gap)
    ensures BothPasses(gap + rest) == BothPasses(gap) + BothPasses(rest) && AllSpace(BothPasses(gap))
  {
    hide Strip, Closed;
    GapStrip(gap, rest, "/*", "*/");
    GapStrip(Pass("/*", "*/")(gap), Pass("/*", "*/")(rest), "//", "\n");
  }

  // ----- Serialised text

  /** "%1.17g" prints digits, a sign, a point and an exponent. */
  ghost predicate PrintsPlain(lib: Libc) {
    forall n :: Plain(lib.sprintf(n))
  }

  lemma {:induction false} DocOfPlain(lib: Libc, v: Json, level: nat, pretty: bool)
    requires PrintsPlain(lib)
    ensures PlainTokens(DocOf(lib, v, level, pretty))
    decreases v, 1
  {
    hide Plain, PiecesOf, ItemDocs, EntryDocs;
    match v
    case Arr(items) => ItemDocsPlain(lib, items, level, pretty);
    case Obj(ms) => EntryDocsPlain(lib, ms, level, pretty);
    case Str(s) => PiecesOfValue(s);
    case _ =>
  }

  lemma {:induction false} ItemDocsPlain(lib: Libc, items: seq<Json>, level: nat, pretty: bool)
    requires PrintsPlain(lib)
    ensures PlainTokens(Array(ItemDocs(lib, items, 0, level, pretty), []))
    decreases items, 0
  {
    hide PrintsPlain, ItemDocs, DocOf, PlainTokens;
    var docs := ItemDocs(lib, items, 0, level, pretty);
    forall i | 0 <= i < |items| ensures PlainTokens(docs[i].value) {
      ItemDocAt(lib, items, 0, i, level, pretty);
      DocOfPlain(lib, items[i], level + 1, pretty);
    }
    ArrayPlain(docs);
  }

  lemma ArrayPlain(docs: seq<Item>)
    requires forall i :: 0 <= i < |docs| ==> PlainTokens(docs[i].value)
    ensures PlainTokens(Array(docs, []))
  {
  }

  lemma ObjectPlain(docs: seq<Entry>)
    requires forall i :: 0 <= i < |docs| ==> Legal(docs[i].name) && PlainTokens(docs[i].item.value)
    ensures PlainTokens(Object(docs, []))
  {
    hide Legal;
  }

  lemma {:induction false} EntryDocsPlain(lib: Libc, ms: seq<Member>, level: nat, pretty: bool)
    requires PrintsPlain(lib)
    ensures PlainTokens(Object(EntryDocs(lib, ms, 0, level, pretty), []))
    decreases ms, 0
  {
    hide PrintsPlain, EntryDocs, DocOf, PiecesOf, Legal, StringValue, PlainTokens, ValueNamed;
    var docs := EntryDocs(lib, ms, 0, level, pretty);
    forall i | 0 <= i < |ms| ensures Legal(docs[i].name) && PlainTokens(docs[i].item.value) {
      EntryDocAt(lib, ms, 0, i, level, pretty);
      PiecesOfValue(ms[i].name);
      DocOfPlain(lib, ValueNamed(ms, i), level + 1, pretty);
    }
    ObjectPlain(docs);
  }

  /** Both passes leave serialised text as it is, whatever the strings in it contain. */
  lemma SerializedHasNoComments(lib: Libc, v: Json, pretty: bool)
    requires PrintsPlain(lib)
    ensures var t := Serialize(lib, v, 0, pretty); '\0' !in t && RemoveBoth(t) == t
  {
    hide Strip, Closed, Pass, AllGaps, MapGaps, PlainTokens, Write, Serialize, DocOf, CommentGap, RemoveBoth;
    var d, p1, p2 := DocOf(lib, v, 0, pretty), Pass("/*", "*/"), Pass("//", "\n");
    DocOfSpaced(lib, v, 0, pretty);
    DocOfPlain(lib, v, 0, pretty);
    Layout(lib, v, 0, pretty, []);
    assert Serialize(lib, v, 0, pretty) + [] == Serialize(lib, v, 0, pretty);
    forall t: Text | AllSpace(t)
      ensures ClosedGap(t, "/*", "*/") && ClosedGap(t, "//", "\n") && p1(t) == t && p2(t) == t && '\0' !in t
    {
      SpaceIsClosed(t);
    }
    GapsWeaken(d, (t: Text) => AllSpace(t), (t: Text) => ClosedGap(t, "/*", "*/"));
    GapsWeaken(d, (t: Text) => AllSpace(t), (t: Text) => ClosedGap(t, "//", "\n"));
    GapsWeaken(d, (t: Text) => AllSpace(t), (t: Text) => '\0' !in t);
    MapGapsSame(d, (t: Text) => AllSpace(t), p1);
    MapGapsSame(d, (t: Text) => AllSpace(t), p2);
    DocStrip(d, [], "/*", "*/");
    DocStrip(d, [], "//", "\n");
    NothingStripped();
    PassIs(Write(d, []));
    WriteHasNoNul(d, []);
    RemoveBothIs(Write(d, []));
  }

  lemma SpaceIsClosed(t: Text)
    requires AllSpace(t)
    ensures ClosedGap(t, "/*", "*/") && ClosedGap(t, "//", "\n") && '\0' !in t
    ensures Pass("/*", "*/")(t) == t && Pass("//", "\n")(t) == t
  {
    hide Strip, Closed;
    SpaceClosed(t, "/*", "*/");
    SpaceClosed(t, "//", "\n");
  }

  lemma NothingStripped()
    ensures Strip([], "/*", "*/", false, false) == [] && Strip([], "//", "\n", false, false) == []
  {
  }

  lemma PassIs(t: Text)
    ensures Pass("/*", "*/")(t) == Strip(t, "/*", "*/", false, false)
    ensures Pass("//", "\n")(t) == Strip(t, "//", "\n", false, false)
  {
    hide Strip;
  }

  /** json_parse_string_with_comments undoes serialising too. */
  lemma CommentedRoundTrip(lib: Libc, v: Json, pretty: bool)
    requires PrintsPlain(lib) && WellFormed(v) && Fits(v, 0) && NumbersPrintBack(lib, v)
    ensures '\0' !in Serialize(lib, v, 0, pretty)
    ensures ParseWithComments(lib, Serialize(lib, v, 0, pretty)) == Success(v, [])
  {
    hide Serialize, RemoveBoth, ParseValue;
    var t := Serialize(lib, v, 0, pretty);
    SerializedHasNoComments(lib, v, pretty);
    assert t + [] == t;
    ParseBack(lib, v, 0, pretty, 0, []);
  }

  // ----- The two entry points

  ghost predicate StartsWithMark(t: Text) {
    At(t, 0) as int == 0xEF && At(t, 1) as int == 0xBB && At(t, 2) as int == 0xBF
  }

  /** A text that starts with the first byte of a byte order mark, which json_parse_string skips, is refused. */
  lemma MarkRefused(lib: Libc, t: CStr)
    requires t != [] && t[0] as int == 0xEF
    ensures ParseWithComments(lib, t).Failure?
  {
    hide Strip, ParseObject, ParseArray;
    var u := RemoveComments(t, "/*", "*/");
    var r := RemoveComments(u, "//", "\n");
    KeptHead(t, "/*", "*/");
    KeptHead(u, "//", "\n");
    assert SkipSpace(r) == r;
  }

  lemma KeptHead(t: CStr, start: Text, end: Text)
    requires t != [] && start != [] && end != [] && t[0] != start[0]
    ensures RemoveComments(t, start, end)[0] == t[0]
  {
    hide Find, Blank;
  }

  /** On a text without comments that json_parse_string accepts, the two agree exactly when it has no mark. */
  lemma AgreeIff(lib: Libc, t: CStr)
    requires RemoveBoth(t) == t && ParseText(lib, t).Success?
    ensures ParseWithComments(lib, t) == ParseText(lib, t) <==> !StartsWithMark(t)
  {
    hide RemoveBoth, ParseValue;
    if StartsWithMark(t) {
      MarkRefused(lib, t);
    }
  }
}
