/** JSON texts as RFC 8259 describes them: values with arbitrary insignificant whitespace around their tokens
    (section 2), numbers (section 6) and strings with any choice of escapes (section 7). */
module Grammar {
  import opened Bytes
  import opened Utf8
  import opened StringCodec
  import opened StringLaws
  import opened Json
  import opened Decimals

  // ----- Strings

  /** The characters that can follow a backslash, `u` aside, and the code points they stand for. */
  const ESCAPES: map<byte, nat> := map[
    '\"' := 0x22, '\\' := 0x5C, '/' := 0x2F, 'b' := 0x08, 'f' := 0x0C, 'n' := 0x0A, 'r' := 0x0D, 't' := 0x09
  ]

  /** The code's table is that table. */
  lemma EscapesAre(c: byte)
    ensures SimpleEscape(c) == if c in ESCAPES then Some(ESCAPES[c] as char) else None
  {
  }

  /** One character of a literal: as it is, as a two-character escape, or as one or two \u escapes, of which
      `digits` is everything behind the first `u`. */
  datatype Piece = Raw(c: byte) | Short(c: byte) | Unicode(cp: nat, digits: Text) {

    predicate Legal() {
      match this
      case Raw(c) => c as int >= 0x20 && c != '\"' && c != '\\'
      case Short(c) => c in ESCAPES
      case Unicode(cp, digits) =>
        && IsScalar(cp)
        && |digits| == 6 * |Utf16Units(cp)| - 2
        && Spells("u" + digits, Utf16Units(cp))
    }

    function Written(): (t: Text)
      ensures t != []
    {
      match this
      case Raw(c) => [c]
      case Short(c) => ['\\', c]
      case Unicode(_, digits) => "\\u" + digits
    }

    /** The bytes it stands for. */
    function Bytes(): Text
      requires Legal()
    {
      match this
      case Raw(c) => [c]
      case Short(c) => [ESCAPES[c] as char]
      case Unicode(cp, _) => Encode(cp)
    }
  }

  predicate Legal(pieces: seq<Piece>) {
    forall i :: 0 <= i < |pieces| ==> pieces[i].Legal()
  }

  /** The pieces, followed by `rest`. */
  function WritePieces(pieces: seq<Piece>, rest: Text): Text {
    if pieces == [] then rest else pieces[0].Written() + WritePieces(pieces[1..], rest)
  }

  function WriteString(pieces: seq<Piece>, rest: Text): Text {
    "\"" + WritePieces(pieces, "\"" + rest)
  }

  function Decoded(pieces: seq<Piece>): Text
    requires Legal(pieces)
  {
    if pieces == [] then [] else pieces[0].Bytes() + Decoded(pieces[1..])
  }

  /** The C string it is read as: an escaped NUL ends it. */
  function StringValue(pieces: seq<Piece>): CStr
    requires Legal(pieces)
  {
    CString(Decoded(pieces))
  }

  /** One piece is one turn of process_string, and skip_quotes passes over it. */
  lemma PieceStep(p: Piece, rest: Text)
    requires p.Legal()
    ensures var t := p.Written() + rest;
            && Step(t) == Some((p.Bytes(), |p.Written()|))
            && SkipBody(t) == SkipBody(rest)
            && Head(t) != '\0' && t[|p.Written()|..] == rest
  {
    hide ESCAPES, SimpleEscape;
    var t := p.Written() + rest;
    assert t[|p.Written()|..] == rest;
    match p
    case Raw(c) => PlainByte(c, rest);
    case Short(c) => ShortStep(c, rest);
    case Unicode(cp, digits) =>
      UnicodeStep(cp, digits, rest);
      SkipEscape(t);
  }

  lemma ShortStep(c: byte, rest: Text)
    requires c in ESCAPES
    ensures var t := ['\\', c] + rest;
            Step(t) == Some(([ESCAPES[c] as char], 2)) && SkipBody(t) == SkipBody(rest)
  {
    EscapesAre(c);
    NotU(c);
    hide ESCAPES, SimpleEscape;
    var t := ['\\', c] + rest;
    assert t[0] == '\\' && t[1] == c && t[2..] == rest && t[1..][0] == c;
  }

  lemma NotU(c: byte)
    requires c in ESCAPES
    ensures c != 'u' && c != '\0'
  {
  }

  lemma UnicodeStep(cp: nat, digits: Text, rest: Text)
    requires Unicode(cp, digits).Legal()
    ensures var u := ("\\u" + digits + rest)[1..];
            u[0] == 'u' && ParseUtf16(u) == Some((Encode(cp), 1 + |digits|))
  {
    hide SpellsUnit;
    var short := "u" + digits;
    var u := ("\\u" + digits + rest)[1..];
    assert u == short + rest;
    UnitPrefix(short, rest, 1, Utf16Units(cp)[0]);
    if |Utf16Units(cp)| == 2 {
      UnitPrefix(short, rest, 7, Utf16Units(cp)[1]);
    }
    ParseUtf16Complete(u, cp);
  }

  lemma UnitPrefix(t: Text, rest: Text, i: nat, unit: nat)
    requires i + 4 <= |t|
    ensures SpellsUnit(t + rest, i, unit) == SpellsUnit(t, i, unit)
  {
    var u := t + rest;
    assert u[i] == t[i] && u[i + 1] == t[i + 1] && u[i + 2] == t[i + 2] && u[i + 3] == t[i + 3];
  }

  lemma {:induction false} PiecesRead(pieces: seq<Piece>, rest: Text) returns (n: nat)
    requires Legal(pieces)
    ensures var t := WritePieces(pieces, "\"" + rest);
            && SkipBody(t) == Some(rest) && n == |t| - |rest| - 1
            && ProcessRaw(t, n) == Some((Decoded(pieces), "\"" + rest))
  {
    hide Step, ProcessRaw, SkipBody, Piece.Legal, Piece.Bytes, Piece.Written;
    if pieces == [] {
      QuoteEnds("\"" + rest);
      assert ("\"" + rest)[1..] == rest;
      n := 0;
    } else {
      var more := WritePieces(pieces[1..], "\"" + rest);
      var k := PiecesRead(pieces[1..], rest);
      n := k + |pieces[0].Written()|;
      PieceStep(pieces[0], more);
      ProcessUnfold(pieces[0].Written() + more, n);
    }
  }

  /** A literal is read as the string it stands for, and reading goes on behind it. */
  lemma StringRead(pieces: seq<Piece>, rest: Text)
    requires Legal(pieces)
    ensures GetQuoted(WriteString(pieces, rest)) == Some((StringValue(pieces), rest))
  {
    hide ProcessRaw, SkipBody, WritePieces;
    var t := WriteString(pieces, rest);
    assert t[1..] == WritePieces(pieces, "\"" + rest);
    var n := PiecesRead(pieces, rest);
  }

  // Nothing else is read as a literal

  /** What one turn of process_string reads is a legal character. */
  lemma PieceRead(t: Text) returns (p: Piece)
    requires t != [] && t[0] != '\"' && Step(t).Some?
    ensures p.Legal() && p.Written() == t[..Step(t).value.1] && p.Bytes() == Step(t).value.0
  {
    if t[0] != '\\' {
      hide ESCAPES;
      p := Raw(t[0]);
    } else if At(t, 1) != 'u' {
      p := Short(t[1]);
      EscapesAre(t[1]);
      hide ESCAPES, SimpleEscape;
      assert t[..2] == ['\\', t[1]];
    } else {
      p := UnicodeRead(t);
    }
  }

  lemma UnicodeRead(t: Text) returns (p: Piece)
    requires |t| > 1 && t[0] == '\\' && t[1] == 'u' && Step(t).Some?
    ensures p.Unicode? && p.Legal() && p.Written() == t[..Step(t).value.1] && p.Bytes() == Step(t).value.0
  {
    hide ParseUtf16, SpellsUnit, Encode;
    var u, k := t[1..], Step(t).value.1;
    var cp := ParseUtf16Sound(u);
    var digits := t[2..k];
    var short := "u" + digits;
    p := Unicode(cp, digits);
    assert short == u[..k - 1];
    assert u == short + u[k - 1..];
    UnitPrefix(short, u[k - 1..], 1, Utf16Units(cp)[0]);
    if |Utf16Units(cp)| == 2 {
      UnitPrefix(short, u[k - 1..], 7, Utf16Units(cp)[1]);
      assert At(short, 5) == At(u, 5) && At(short, 6) == At(u, 6);
    }
    assert "\\u" + digits == t[..k];
  }

  lemma {:induction false} PiecesOfBody(t: Text, n: nat) returns (pieces: seq<Piece>)
    requires Delimited(t, n) && ProcessRaw(t, n).Some?
    ensures Legal(pieces) && WritePieces(pieces, t[n..]) == t && ProcessRaw(t, n).value.0 == Decoded(pieces)
    decreases n
  {
    hide Step, Piece.Legal, Piece.Bytes, Piece.Written;
    if n == 0 {
      pieces := [];
      assert t[0..] == t;
    } else {
      BodyHead(t, n);
      var k := Step(t).value.1;
      StepInside(t, n);
      ProcessUnfold(t, n);
      hide SkipBody, ProcessRaw, Delimited;
      var p := PieceRead(t);
      var more := PiecesOfBody(t[k..], n - k);
      pieces := [p] + more;
      assert pieces[1..] == more && t[k..][n - k..] == t[n..];
      assert t == t[..k] + t[k..];
    }
  }

  lemma BodyHead(t: Text, n: nat)
    requires Delimited(t, n) && n > 0 && ProcessRaw(t, n).Some?
    ensures t != [] && t[0] != '\"' && t[0] != '\0' && Step(t).Some?
  {
    hide Step;
  }

  /** get_quoted_string reads exactly the literals of RFC 8259 section 7 whose surrogates are paired. */
  lemma QuotedExact(t: Text, s: CStr, rest: Text)
    ensures GetQuoted(t) == Some((s, rest)) <==>
            exists pieces :: Legal(pieces) && t == WriteString(pieces, rest) && s == StringValue(pieces)
  {
    if GetQuoted(t) == Some((s, rest)) {
      var pieces := LiteralPieces(t);
    }
    hide GetQuoted, WriteString, StringValue, Legal;
    forall pieces | Legal(pieces) && t == WriteString(pieces, rest) && s == StringValue(pieces)
      ensures GetQuoted(t) == Some((s, rest))
    {
      StringRead(pieces, rest);
    }
  }

  lemma LiteralPieces(t: Text) returns (pieces: seq<Piece>)
    requires GetQuoted(t).Some?
    ensures Legal(pieces) && t == WriteString(pieces, GetQuoted(t).value.1)
    ensures GetQuoted(t).value.0 == StringValue(pieces)
  {
    var u, n := QuotedBody(t);
    hide GetQuoted, ProcessRaw, Delimited, WritePieces, Decoded, Legal;
    pieces := PiecesOfBody(u, n);
  }

  /** The body of a literal that is read. */
  lemma QuotedBody(t: Text) returns (u: Text, n: nat)
    requires GetQuoted(t).Some?
    ensures Delimited(u, n) && ProcessRaw(u, n).Some? && n <= |u|
    ensures var (s, rest) := GetQuoted(t).value;
            t == "\"" + u && u[n..] == "\"" + rest && s == CString(ProcessRaw(u, n).value.0)
  {
    hide ProcessRaw, SkipBody;
    var rest := GetQuoted(t).value.1;
    u, n := t[1..], |t| - |rest| - 2;
    SkippedIsSuffix(u);
    ProcessStopsAtQuote(u, n);
    assert u[n..] == "\"" + u[n + 1..];
  }

  // ----- What json_serialize_string writes

  function PieceOf(c: byte): Piece {
    var e := EscapeByte(c);
    if |e| == 1 then Raw(c)
    else if |e| == 2 then Short(e[1])
    else Unicode(c as nat, e[2..])
  }

  lemma PieceOfWrites(c: byte)
    requires c != '\0'
    ensures PieceOf(c).Legal() && PieceOf(c).Written() == EscapeByte(c) && PieceOf(c).Bytes() == [c]
  {
    var e := EscapeByte(c);
    if |e| == 1 {
      hide ESCAPES;
    } else if |e| == 2 {
      ShortEscaped(c);
    } else {
      ControlEscaped(c);
    }
  }

  /** A character with a two-character escape is written so, another control character with four lower-case digits, and
      everything else as it is. */
  lemma EscapesWritten(c: byte)
    ensures forall e :: e in ESCAPES && ESCAPES[e] == c as nat ==> EscapeByte(c) == ['\\', e]
    ensures (forall e :: e in ESCAPES ==> ESCAPES[e] != c as nat) ==>
              EscapeByte(c) == if c as int >= 0x20 then [c]
                               else "\\u00" + [HEX_LOWER[c as int / 16], HEX_LOWER[c as int % 16]]
  {
    forall e | e in ESCAPES && ESCAPES[e] == c as nat ensures EscapeByte(c) == ['\\', e] {
      EscapesAre(e);
      hide ESCAPES;
    }
    if forall e :: e in ESCAPES ==> ESCAPES[e] != c as nat {
      assert ESCAPES['\"'] == 0x22 && ESCAPES['\\'] == 0x5C && ESCAPES['/'] == 0x2F && ESCAPES['b'] == 0x08;
      assert ESCAPES['f'] == 0x0C && ESCAPES['n'] == 0x0A && ESCAPES['r'] == 0x0D && ESCAPES['t'] == 0x09;
      NoShort(c);
    }
  }

  lemma NoShort(c: byte)
    requires c as nat !in {0x22, 0x5C, 0x2F, 0x08, 0x0C, 0x0A, 0x0D, 0x09}
    ensures EscapeByte(c) == if c as int >= 0x20 then [c]
                             else "\\u00" + [HEX_LOWER[c as int / 16], HEX_LOWER[c as int % 16]]
  {
  }

  lemma ShortEscaped(c: byte)
    requires |EscapeByte(c)| == 2
    ensures var e := EscapeByte(c);
            e[0] == '\\' && e[1] in ESCAPES && [ESCAPES[e[1]] as char] == [c] && e == ['\\', e[1]]
  {
  }

  lemma ControlEscaped(c: byte)
    requires |EscapeByte(c)| > 2
    ensures var e := EscapeByte(c);
            Unicode(c as nat, e[2..]).Legal() && "\\u" + e[2..] == e && Encode(c as nat) == [c]
  {
    hide ESCAPES, HexChar, IsHexDigit;
    var e := EscapeByte(c);
    HexCharIs(c as int / 16);
    HexCharIs(c as int % 16);
    var u := "u" + e[2..];
    HexCharIs(0);
    assert HexChar(0) == '0' by { HexZero(); }
    assert u[1] == '0' && u[2] == '0' && u[3] == HexChar(c as int / 16) && u[4] == HexChar(c as int % 16);
    assert SpellsUnit(u, 1, c as int);
  }

  lemma HexZero()
    ensures HexChar(0) == '0'
  {
  }

  lemma HexCharIs(d: nat)
    requires d < 16
    ensures IsHexDigit(HexChar(d), d)
  {
  }

  function PiecesOf(s: CStr): seq<Piece> {
    if s == [] then [] else [PieceOf(s[0])] + PiecesOf(s[1..])
  }

  lemma {:induction false} PiecesOfMean(s: CStr)
    ensures Legal(PiecesOf(s)) && Decoded(PiecesOf(s)) == s
  {
    if s != [] {
      hide PieceOf, PiecesOf, Piece.Legal, Piece.Bytes, Piece.Written;
      PieceOfWrites(s[0]);
      PiecesOfMean(s[1..]);
      PiecesOfStep(s);
      LegalCons(PieceOf(s[0]), PiecesOf(s[1..]));
      assert PiecesOf(s) == [PieceOf(s[0])] + PiecesOf(s[1..]) && s == [s[0]] + s[1..];
    }
  }

  lemma LegalCons(p: Piece, more: seq<Piece>)
    requires p.Legal() && Legal(more)
    ensures Legal([p] + more) && Decoded([p] + more) == p.Bytes() + Decoded(more)
  {
    hide Piece.Legal, Piece.Bytes, Piece.Written;
    assert ([p] + more)[1..] == more;
  }

  lemma EscapeAllStep(s: CStr, rest: Text)
    requires s != []
    ensures EscapeAll(s) + rest == EscapeByte(s[0]) + (EscapeAll(s[1..]) + rest)
  {
    hide EscapeByte;
  }

  lemma PiecesOfStep(s: CStr)
    requires s != []
    ensures PiecesOf(s) != [] && PiecesOf(s)[0] == PieceOf(s[0]) && PiecesOf(s)[1..] == PiecesOf(s[1..])
  {
    hide PieceOf;
  }

  lemma {:induction false} PiecesOfWrite(s: CStr, rest: Text)
    ensures WritePieces(PiecesOf(s), rest) == EscapeAll(s) + rest
  {
    if s == [] {
      assert EscapeAll(s) + rest == rest;
    } else {
      hide EscapeByte, PieceOf, PiecesOf, EscapeAll;
      PieceOfWrites(s[0]);
      PiecesOfWrite(s[1..], rest);
      PiecesOfStep(s);
      EscapeAllStep(s, rest);
    }
  }

  lemma SerializedString(s: CStr, rest: Text)
    ensures WriteString(PiecesOf(s), rest) == SerializeString(s) + rest
  {
    PiecesOfWrite(s, "\"" + rest);
    assert SerializeString(s) + rest == "\"" + (EscapeAll(s) + ("\"" + rest));
  }

  /** Serialising a string and reading the literal back gives the string, with reading left just past the quote. */
  lemma StringRoundTrip(s: CStr, rest: Text)
    ensures GetQuoted(SerializeString(s) + rest) == Some((s, rest))
  {
    hide GetQuoted, WriteString, SerializeString, Decoded;
    PiecesOfMean(s);
    SerializedString(s, rest);
    StringRead(PiecesOf(s), rest);
  }

  // ----- Values

  /** A value in an array, or behind the colon of a member, with the whitespace around it. */
  datatype Item = Item(before: Text, value: Doc, after: Text)

  /** A member: whitespace, name, whitespace, colon, and the value. */
  datatype Entry = Entry(before: Text, name: seq<Piece>, colon: Text, item: Item)

  /** A value as it is written; `gap` is the whitespace in an empty container. */
  datatype Doc =
    | Fixed(value: Json)
    | Numeral(text: Text)
    | Literal(pieces: seq<Piece>)
    | Array(items: seq<Item>, gap: Text)
    | Object(entries: seq<Entry>, gap: Text)

  function FixedText(v: Json): Text {
    match v
    case Bool(b) => if b then "true" else "false"
    case _ => "null"
  }

  /** The text of a value, followed by `rest`. */
  function Write(d: Doc, rest: Text): Text
    decreases d, 0
  {
    match d
    case Fixed(v) => FixedText(v) + rest
    case Numeral(text) => text + rest
    case Literal(pieces) => WriteString(pieces, rest)
    case Array(items, gap) => "[" + if items == [] then gap + ("]" + rest) else WriteItems(items, "]" + rest)
    case Object(entries, gap) => "{" + if entries == [] then gap + ("}" + rest) else WriteEntries(entries, "}" + rest)
  }

  /** What follows an entry of a container. */
  function WriteItems(items: seq<Item>, tail: Text): Text
    requires items != []
    decreases items, 1
  {
    items[0].before + Write(items[0].value, AfterItem(items, tail))
  }

  function AfterItem(items: seq<Item>, tail: Text): Text
    requires items != []
    decreases items, 0
  {
    items[0].after + if |items| == 1 then tail else "," + WriteItems(items[1..], tail)
  }

  function WriteEntries(entries: seq<Entry>, tail: Text): Text
    requires entries != []
    decreases entries, 2
  {
    entries[0].before + WriteEntry(entries, tail)
  }

  /** From the name of the first member on. */
  function WriteEntry(entries: seq<Entry>, tail: Text): Text
    requires entries != []
    decreases entries, 1
  {
    var e := entries[0];
    WriteString(e.name, e.colon + (":" + (e.item.before + Write(e.item.value, AfterEntry(entries, tail)))))
  }

  function AfterEntry(entries: seq<Entry>, tail: Text): Text
    requires entries != []
    decreases entries, 0
  {
    entries[0].item.after + if |entries| == 1 then tail else "," + WriteEntries(entries[1..], tail)
  }

  lemma WriteEntriesIs(entries: seq<Entry>, tail: Text)
    requires entries != []
    ensures var e := entries[0];
            WriteEntries(entries, tail)
            == e.before + WriteString(e.name, e.colon + (":" + (e.item.before
               + Write(e.item.value, AfterEntry(entries, tail)))))
  {
    hide Write, WriteString, AfterEntry;
  }

  /** Strings are those of the grammar, and numerals are texts that `strtod` reads whole. */
  ghost predicate Tokens(lib: Libc, d: Doc) {
    match d
    case Fixed(v) => v.Null? || v.Bool?
    case Numeral(text) => ReadWhole(lib, text) && MinusOrDigit(Head(text))
    case Literal(pieces) => Legal(pieces)
    case Array(items, _) => forall i :: 0 <= i < |items| ==> Tokens(lib, items[i].value)
    case Object(entries, _) =>
      forall i :: 0 <= i < |entries| ==> Legal(entries[i].name) && Tokens(lib, entries[i].item.value)
  }

  /** All tokens are those of the grammar. */
  ghost predicate Rfc8259(d: Doc) {
    match d
    case Fixed(v) => v.Null? || v.Bool?
    case Numeral(text) => IsNumeral(text)
    case Literal(pieces) => Legal(pieces)
    case Array(items, _) => forall i :: 0 <= i < |items| ==> Rfc8259(items[i].value)
    case Object(entries, _) =>
      forall i :: 0 <= i < |entries| ==> Legal(entries[i].name) && Rfc8259(entries[i].item.value)
  }

  /** All numerals have a property. */
  ghost predicate AllNumerals(d: Doc, ok: Text -> bool) {
    match d
    case Numeral(text) => ok(text)
    case Array(items, _) => forall i :: 0 <= i < |items| ==> AllNumerals(items[i].value, ok)
    case Object(entries, _) => forall i :: 0 <= i < |entries| ==> AllNumerals(entries[i].item.value, ok)
    case _ => true
  }

  /** parse_number_value takes the numeral. */
  ghost predicate Taken(lib: Libc, text: Text) {
    PlainNumeral(text) && InRange(lib, text)
  }

  /** `strtod` does not overflow or underflow on it. */
  ghost predicate InRange(lib: Libc, text: Text) {
    lib.strtod(text).inRange && lib.strtod(text).value.Some?
  }

  ghost predicate NumeralsTaken(lib: Libc, d: Doc) {
    AllNumerals(d, (t: Text) => Taken(lib, t))
  }

  /** The number `strtod` reads. */
  ghost function NumberOf(lib: Libc, text: Text): Number {
    match lib.strtod(text).value
    case Some(n) => n
    case None => Number(false, 0.0)
  }

  /** The value it stands for. */
  ghost function Meaning(lib: Libc, d: Doc): Json
    requires Tokens(lib, d)
  {
    match d
    case Fixed(v) => v
    case Numeral(text) => Num(NumberOf(lib, text))
    case Literal(pieces) => Str(StringValue(pieces))
    case Array(items, _) => Arr(seq(|items|, i requires 0 <= i < |items| => Meaning(lib, items[i].value)))
    case Object(entries, _) =>
      Obj(seq(|entries|, i requires 0 <= i < |entries| =>
            Member(StringValue(entries[i].name), Meaning(lib, entries[i].item.value))))
  }

  // ----- Gaps

  /** All gaps are whitespace. */
  ghost predicate Spaced(d: Doc) {
    AllGaps(d, (t: Text) => AllSpace(t))
  }

  /** All gaps have a property. */
  ghost predicate AllGaps(d: Doc, ok: Text -> bool) {
    match d
    case Array(items, gap) =>
      && ok(gap)
      && forall i :: 0 <= i < |items| ==>
           ok(items[i].before) && ok(items[i].after) && AllGaps(items[i].value, ok)
    case Object(entries, gap) =>
      && ok(gap)
      && forall i :: 0 <= i < |entries| ==>
           && ok(entries[i].before) && ok(entries[i].colon)
           && ok(entries[i].item.before) && ok(entries[i].item.after) && AllGaps(entries[i].item.value, ok)
    case _ => true
  }

  /** The same document with its gaps rewritten. */
  ghost function MapGaps(d: Doc, f: Text -> Text): Doc {
    match d
    case Array(items, gap) => Array(MapItems(items, f), f(gap))
    case Object(entries, gap) => Object(MapEntries(entries, f), f(gap))
    case _ => d
  }

  ghost function MapItems(items: seq<Item>, f: Text -> Text): (r: seq<Item>)
    ensures |r| == |items|
  {
    if items == [] then []
    else
      var Item(before, value, after) := items[0];
      [Item(f(before), MapGaps(value, f), f(after))] + MapItems(items[1..], f)
  }

  ghost function MapEntries(entries: seq<Entry>, f: Text -> Text): (r: seq<Entry>)
    ensures |r| == |entries|
  {
    if entries == [] then []
    else
      var Entry(before, name, colon, item) := entries[0];
      [Entry(f(before), name, f(colon), Item(f(item.before), MapGaps(item.value, f), f(item.after)))]
      + MapEntries(entries[1..], f)
  }

  lemma {:induction false} MapItemsAt(items: seq<Item>, f: Text -> Text, i: nat)
    requires i < |items|
    ensures var Item(before, value, after) := items[i];
            MapItems(items, f)[i] == Item(f(before), MapGaps(value, f), f(after))
  {
    hide MapGaps;
    if i > 0 {
      MapItemsAt(items[1..], f, i - 1);
    }
  }

  lemma {:induction false} MapEntriesAt(entries: seq<Entry>, f: Text -> Text, i: nat)
    requires i < |entries|
    ensures var Entry(before, name, colon, item) := entries[i];
            MapEntries(entries, f)[i]
            == Entry(f(before), name, f(colon), Item(f(item.before), MapGaps(item.value, f), f(item.after)))
  {
    hide MapGaps;
    if i > 0 {
      MapEntriesAt(entries[1..], f, i - 1);
    }
  }

  lemma {:induction false} MapGapsAll(d: Doc, p: Text -> bool, f: Text -> Text, q: Text -> bool)
    requires AllGaps(d, p) && forall t | p(t) :: q(f(t))
    ensures AllGaps(MapGaps(d, f), q)
  {
    hide MapItems, MapEntries;
    match d
    case Array(items, _) =>
      forall i | 0 <= i < |items|
        ensures var m := MapItems(items, f)[i]; q(m.before) && q(m.after) && AllGaps(m.value, q)
      {
        MapItemsAt(items, f, i);
        MapGapsAll(items[i].value, p, f, q);
      }
    case Object(entries, _) =>
      forall i | 0 <= i < |entries|
        ensures var m := MapEntries(entries, f)[i];
                q(m.before) && q(m.colon) && q(m.item.before) && q(m.item.after) && AllGaps(m.item.value, q)
      {
        MapEntriesAt(entries, f, i);
        MapGapsAll(entries[i].item.value, p, f, q);
      }
    case _ =>
  }

  /** Rewriting gaps that stay as they are changes nothing. */
  lemma {:induction false} MapGapsSame(d: Doc, p: Text -> bool, f: Text -> Text)
    requires AllGaps(d, p) && forall t | p(t) :: f(t) == t
    ensures MapGaps(d, f) == d
  {
    hide MapItems, MapEntries;
    match d
    case Array(items, _) =>
      forall i | 0 <= i < |items| ensures MapItems(items, f)[i] == items[i] {
        MapItemsAt(items, f, i);
        MapGapsSame(items[i].value, p, f);
      }
      assert MapItems(items, f) == items;
    case Object(entries, _) =>
      forall i | 0 <= i < |entries| ensures MapEntries(entries, f)[i] == entries[i] {
        MapEntriesAt(entries, f, i);
        MapGapsSame(entries[i].item.value, p, f);
      }
      assert MapEntries(entries, f) == entries;
    case _ =>
  }

  /** Weaker properties. */
  lemma GapsWeaken(d: Doc, p: Text -> bool, q: Text -> bool)
    requires AllGaps(d, p) && forall t | p(t) :: q(t)
    ensures AllGaps(d, q)
  {
    hide AllGaps;
    MapGapsSame(d, p, (t: Text) => t);
    MapGapsAll(d, p, (t: Text) => t, q);
  }

  /** Rewriting gaps keeps the tokens and what they stand for. */
  lemma {:induction false} MapGapsMeans(lib: Libc, d: Doc, f: Text -> Text)
    requires Tokens(lib, d)
    ensures Tokens(lib, MapGaps(d, f)) && Meaning(lib, MapGaps(d, f)) == Meaning(lib, d)
  {
    match d
    case Array(items, gap) =>
      hide MapItems;
      forall i | 0 <= i < |items|
        ensures Tokens(lib, MapItems(items, f)[i].value)
        ensures Meaning(lib, MapItems(items, f)[i].value) == Meaning(lib, items[i].value)
      {
        hide Tokens, Meaning;
        assert Tokens(lib, items[i].value) by { ItemTokens(lib, items, gap, i); }
        MapItemsAt(items, f, i);
        MapGapsMeans(lib, items[i].value, f);
      }
      SameItems(lib, items, MapItems(items, f), gap, f(gap));
    case Object(entries, gap) =>
      hide MapEntries;
      forall i | 0 <= i < |entries|
        ensures MapEntries(entries, f)[i].name == entries[i].name
        ensures Tokens(lib, MapEntries(entries, f)[i].item.value)
        ensures Meaning(lib, MapEntries(entries, f)[i].item.value) == Meaning(lib, entries[i].item.value)
      {
        hide Tokens, Meaning, Legal;
        assert Tokens(lib, entries[i].item.value) by { EntryTokens(lib, entries, gap, i); }
        MapEntriesAt(entries, f, i);
        MapGapsMeans(lib, entries[i].item.value, f);
      }
      SameEntries(lib, entries, MapEntries(entries, f), gap, f(gap));
    case _ =>
  }

  lemma ItemTokens(lib: Libc, items: seq<Item>, gap: Text, i: nat)
    requires Tokens(lib, Array(items, gap)) && i < |items|
    ensures Tokens(lib, items[i].value)
  {
  }

  lemma EntryTokens(lib: Libc, entries: seq<Entry>, gap: Text, i: nat)
    requires Tokens(lib, Object(entries, gap)) && i < |entries|
    ensures Legal(entries[i].name) && Tokens(lib, entries[i].item.value)
  {
  }

  lemma SameItems(lib: Libc, items: seq<Item>, mapped: seq<Item>, gap: Text, gap': Text)
    requires Tokens(lib, Array(items, gap)) && |mapped| == |items|
    requires forall i :: 0 <= i < |items| ==> Tokens(lib, mapped[i].value)
                                              && Meaning(lib, mapped[i].value) == Meaning(lib, items[i].value)
    ensures Tokens(lib, Array(mapped, gap'))
    ensures Meaning(lib, Array(mapped, gap')) == Meaning(lib, Array(items, gap))
  {
    assert Tokens(lib, Array(mapped, gap'));
    var vs, us := Meaning(lib, Array(mapped, gap')).items, Meaning(lib, Array(items, gap)).items;
    assert |vs| == |us| && forall i :: 0 <= i < |vs| ==> vs[i] == us[i];
  }

  lemma SameEntries(lib: Libc, entries: seq<Entry>, mapped: seq<Entry>, gap: Text, gap': Text)
    requires Tokens(lib, Object(entries, gap)) && |mapped| == |entries|
    requires forall i :: 0 <= i < |entries| ==>
               && mapped[i].name == entries[i].name && Tokens(lib, mapped[i].item.value)
               && Meaning(lib, mapped[i].item.value) == Meaning(lib, entries[i].item.value)
    ensures Tokens(lib, Object(mapped, gap'))
    ensures Meaning(lib, Object(mapped, gap')) == Meaning(lib, Object(entries, gap))
  {
    hide Legal, StringValue;
    assert Tokens(lib, Object(mapped, gap'));
    var ms, ns := Meaning(lib, Object(mapped, gap')).members, Meaning(lib, Object(entries, gap)).members;
    assert |ms| == |ns| && forall i :: 0 <= i < |ms| ==> ms[i] == ns[i];
  }

  /** Nor does it touch numerals. */
  lemma {:induction false} MapGapsNumerals(d: Doc, f: Text -> Text, ok: Text -> bool)
    ensures AllNumerals(MapGaps(d, f), ok) == AllNumerals(d, ok)
  {
    hide MapItems, MapEntries;
    match d
    case Array(items, _) =>
      forall i | 0 <= i < |items|
        ensures AllNumerals(MapItems(items, f)[i].value, ok) == AllNumerals(items[i].value, ok)
      {
        MapItemsAt(items, f, i);
        MapGapsNumerals(items[i].value, f, ok);
      }
    case Object(entries, _) =>
      forall i | 0 <= i < |entries|
        ensures AllNumerals(MapEntries(entries, f)[i].item.value, ok) == AllNumerals(entries[i].item.value, ok)
      {
        MapEntriesAt(entries, f, i);
        MapGapsNumerals(entries[i].item.value, f, ok);
      }
    case _ =>
  }

  // ----- Documents of RFC 8259

  /** `strtod` reads every number of section 6 whole, up to a byte that can follow it. */
  ghost predicate ReadsNumerals(lib: Libc) {
    forall t: Text | IsNumeral(t) :: ReadWhole(lib, t)
  }

  lemma {:induction false} RfcTokens(lib: Libc, d: Doc)
    requires Rfc8259(d) && ReadsNumerals(lib)
    ensures Tokens(lib, d)
  {
    hide IsNumeral, ReadWhole, Legal, MinusOrDigit, IsZeroWithExponent, PlainNumeral;
    match d
    case Numeral(text) => NumeralIsPlain(text);
    case Array(items, _) =>
      forall i | 0 <= i < |items| ensures Tokens(lib, items[i].value) {
        RfcTokens(lib, items[i].value);
      }
    case Object(entries, _) =>
      forall i | 0 <= i < |entries| ensures Tokens(lib, entries[i].item.value) {
        RfcTokens(lib, entries[i].item.value);
      }
    case _ =>
  }

  /** A numeral the code takes: not a lone zero directly followed by an exponent, and in range. */
  ghost predicate Ordinary(lib: Libc, text: Text) {
    !IsZeroWithExponent(text) && InRange(lib, text)
  }

  lemma {:induction false} RfcTaken(lib: Libc, d: Doc)
    requires Rfc8259(d)
    ensures NumeralsTaken(lib, d) <==> AllNumerals(d, (t: Text) => Ordinary(lib, t))
  {
    hide IsNumeral, IsZeroWithExponent, InRange, PlainNumeral, Legal;
    match d
    case Numeral(text) => NumeralIsPlain(text);
    case Array(items, _) =>
      forall i | 0 <= i < |items|
        ensures AllNumerals(items[i].value, (t: Text) => Taken(lib, t))
           <==> AllNumerals(items[i].value, (t: Text) => Ordinary(lib, t))
      {
        RfcTaken(lib, items[i].value);
      }
    case Object(entries, _) =>
      forall i | 0 <= i < |entries|
        ensures AllNumerals(entries[i].item.value, (t: Text) => Taken(lib, t))
           <==> AllNumerals(entries[i].item.value, (t: Text) => Ordinary(lib, t))
      {
        RfcTaken(lib, entries[i].item.value);
      }
    case _ =>
  }
}
