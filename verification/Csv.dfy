/** The CSV row reader (csv.c:96-200): one character-driven loop over growing buffers. */
module Csv {
  import opened Bytes

  // ----- The quoting state machine

  /** The loop's variables: the field so far is `currField[..currFieldCharIter]`. */
  datatype State = State(inside: bool, field: Text, quotes: nat, lastQuote: bool, fields: seq<CStr>)

  const START: State := State(false, [], 0, false, [])

  /** What one call returns: a row and the text behind it, a row ended by the end of the text, or "Reached EOF".
      Misplaced: the text ends behind the opening quote of a later field, and no place is left for its terminator. */
  datatype RowResult = Row(fields: seq<CStr>, rest: Text) | LastRow(fields: seq<CStr>) | NoRow | Misplaced

  /** The quote bookkeeping at the top of the loop; None when the character only opened a quoted field. */
  function Track(st: State, c: byte): Option<State> {
    if st.field == [] && !st.lastQuote then
      if c == '\"' then None else Some(st)
    else if c == '\"' then
      var inside := (st.quotes + 1) % 2 == 0;
      Some(st.(quotes := st.quotes + 1, inside := inside,
               field := if inside && st.field != [] then st.field[..|st.field| - 1] else st.field))
    else
      Some(st.(quotes := 0))
  }

  /** The finished field: a closing quote has been stored behind it. */
  function Cut(st: State): (f: CStr)
  {
    CString(if st.lastQuote && st.field != [] then st.field[..|st.field| - 1] else st.field)
  }

  predicate EndsField(st: State, c: byte, delimiter: byte) {
    (c == delimiter || c == '\n') && !st.inside
  }

  /** What one character does: the loop goes on, or the row is complete. */
  datatype Turn = GoOn(st: State) | RowDone(fields: seq<CStr>)

  /** One turn of the loop of csv_parser_getRow, short of the end of the text. */
  function TurnOf(st: State, c: byte, delimiter: byte): Turn {
    if c == '\r' then GoOn(st)
    else
      match Track(st, c)
      case None => GoOn(st.(inside := true, lastQuote := true))
      case Some(s) =>
        if !EndsField(s, c, delimiter) then GoOn(s.(field := s.field + [c], lastQuote := c == '\"'))
        else if c == '\n' then RowDone(s.fields + [Cut(s)])
        else GoOn(State(false, [], s.quotes, false, s.fields + [Cut(s)]))
  }

  /** The end of the text: NULL when nothing has been read, otherwise a line break is supplied. */
  function AtEnd(st: State): RowResult {
    if st.field == [] && st.fields == [] then NoRow
    else if st.field == [] && st.lastQuote then Misplaced
    else
      match Track(st, '\n')
      case None => NoRow
      case Some(s) => LastRow(s.fields + [Cut(s)])
  }

  /** csv_parser_getRow from a state of its loop. */
  function RowFrom(t: Text, delimiter: byte, st: State): RowResult
    decreases |t|
  {
    if t == [] then AtEnd(st)
    else
      match TurnOf(st, t[0], delimiter)
      case GoOn(s) => RowFrom(t[1..], delimiter, s)
      case RowDone(fields) => Row(fields, t[1..])
  }

  // ----- Where a terminator has no place

  /** The state after a text that completes no row. */
  function After(t: Text, delimiter: byte, st: State): Option<State>
    decreases |t|
  {
    if t == [] then Some(st)
    else
      match TurnOf(st, t[0], delimiter)
      case GoOn(s) => After(t[1..], delimiter, s)
      case RowDone(_) => None
  }

  /** At the start of a field that is not the first of its row. */
  predicate LaterField(st: State) {
    st.field == [] && !st.lastQuote && st.fields != []
  }

  ghost predicate OnlyCr(t: Text) {
    forall i :: 0 <= i < |t| ==> t[i] == '\r'
  }

  /** Position `i` holds the opening quote of a later field, and only carriage returns follow. */
  ghost predicate LastOpens(t: Text, delimiter: byte, st: State, i: int) {
    && 0 <= i < |t| && t[i] == '\"' && OnlyCr(t[i + 1..])
    && After(t[..i], delimiter, st).Some? && LaterField(After(t[..i], delimiter, st).value)
  }

  /** The text ends behind the opening quote of a later field. */
  ghost predicate QuoteLast(t: Text, delimiter: byte, st: State) {
    exists i :: LastOpens(t, delimiter, st, i)
  }

  predicate Dangling(st: State) {
    st.field == [] && st.lastQuote && st.fields != []
  }

  lemma TurnDangles(st: State, c: byte, delimiter: byte)
    requires TurnOf(st, c, delimiter).GoOn?
    ensures Dangling(TurnOf(st, c, delimiter).st) <==>
            (c == '\r' && Dangling(st)) || (c == '\"' && LaterField(st))
  {
    hide Cut;
  }

  lemma LastOpensHead(t: Text, delimiter: byte, st: State)
    requires t != []
    ensures LastOpens(t, delimiter, st, 0) <==> t[0] == '\"' && OnlyCr(t[1..]) && LaterField(st)
  {
    hide TurnOf;
    assert t[..0] == [];
  }

  lemma LastOpensTail(t: Text, delimiter: byte, st: State, i: int)
    requires t != [] && i > 0
    ensures LastOpens(t, delimiter, st, i) <==>
            var turn := TurnOf(st, t[0], delimiter); turn.GoOn? && LastOpens(t[1..], delimiter, turn.st, i - 1)
  {
    hide TurnOf;
    if i < |t| {
      assert t[..i][0] == t[0] && t[..i][1..] == t[1..][..i - 1] && t[1..][i..] == t[i + 1..];
    }
  }

  lemma QuoteLastStep(t: Text, delimiter: byte, st: State)
    requires t != []
    ensures QuoteLast(t, delimiter, st) <==>
            var turn := TurnOf(st, t[0], delimiter);
            || (t[0] == '\"' && OnlyCr(t[1..]) && LaterField(st))
            || (turn.GoOn? && QuoteLast(t[1..], delimiter, turn.st))
  {
    hide TurnOf, LastOpens, LaterField, OnlyCr;
    LastOpensHead(t, delimiter, st);
    if i :| LastOpens(t, delimiter, st, i) && i > 0 {
      LastOpensTail(t, delimiter, st, i);
    }
    var turn := TurnOf(st, t[0], delimiter);
    if turn.GoOn? {
      if i :| LastOpens(t[1..], delimiter, turn.st, i) {
        LastOpensInside(t[1..], delimiter, turn.st, i);
        LastOpensTail(t, delimiter, st, i + 1);
      }
    }
    if i :| LastOpens(t, delimiter, st, i) {
      LastOpensInside(t, delimiter, st, i);
    }
  }

  lemma LastOpensInside(t: Text, delimiter: byte, st: State, i: int)
    requires LastOpens(t, delimiter, st, i)
    ensures 0 <= i < |t|
  {
  }

  /** A terminator has no place exactly when the text ends behind the opening quote of a later field. */
  lemma {:induction false} MisplacedIff(t: Text, delimiter: byte, st: State)
    ensures RowFrom(t, delimiter, st).Misplaced? <==>
            QuoteLast(t, delimiter, st) || (Dangling(st) && OnlyCr(t))
  {
    if t == [] {
      hide Track, Cut;
    } else {
      QuoteLastStep(t, delimiter, st);
      RowStep(t, delimiter, st);
      OnlyCrStep(t);
      QuoteGoesOn(st, t[0], delimiter);
      hide TurnOf, QuoteLast, RowFrom, OnlyCr, LaterField, Dangling;
      if TurnOf(st, t[0], delimiter).GoOn? {
        TurnDangles(st, t[0], delimiter);
        MisplacedIff(t[1..], delimiter, TurnOf(st, t[0], delimiter).st);
      }
    }
  }

  lemma OnlyCrStep(t: Text)
    requires t != []
    ensures OnlyCr(t) <==> t[0] == '\r' && OnlyCr(t[1..])
  {
  }

  lemma QuoteGoesOn(st: State, c: byte, delimiter: byte)
    ensures c == '\r' || (c == '\"' && LaterField(st)) ==> TurnOf(st, c, delimiter).GoOn?
    ensures c == '\r' ==> TurnOf(st, c, delimiter) == GoOn(st)
  {
    hide Cut;
  }

  /** A text on which it happens. */
  lemma QuoteAtEnd()
    ensures RowFrom("a,\"", ',', START) == Misplaced
  {
    var t: Text := "a,\"";
    var s1 := State(false, "a", 0, false, []);
    var s2 := State(false, [], 0, false, ["a"]);
    assert TurnOf(START, 'a', ',') == GoOn(s1);
    assert CString("a") == "a";
    assert TurnOf(s1, ',', ',') == GoOn(s2);
    assert t[1..][0] == ',' && t[1..][1..] == "\"" && t[1..][1..][1..] == [];
    assert RowFrom(t, ',', START) == RowFrom(t[1..], ',', s1) == RowFrom("\"", ',', s2);
  }

  /** Calling the reader until it returns NULL. */
  function ReadRows(t: Text, delimiter: byte): seq<seq<CStr>>
    decreases |t|
  {
    match RowFrom(t, delimiter, START)
    case NoRow => []
    case Misplaced => []
    case LastRow(fields) => [fields]
    case Row(fields, rest) => if |rest| < |t| then [fields] + ReadRows(rest, delimiter) else []
  }

  // ----- Documents written by RFC 4180 section 2

  /** A field and whether it is written between quotes (rule 5). */
  datatype Field = Field(value: CStr, quoted: bool)

  /** Rule 7: a quote inside a quoted field is written twice. */
  function Doubled(v: CStr): CStr {
    if v == [] then [] else (if v[0] == '\"' then "\"\"" else [v[0]]) + Doubled(v[1..])
  }

  function WriteField(f: Field): CStr {
    if f.quoted then "\"" + (Doubled(f.value) + "\"") else f.value
  }

  /** Rules 5 and 6: a field with a quote, a delimiter or a line break must be quoted. */
  predicate Writable(f: Field, delimiter: byte) {
    !f.quoted ==> '\"' !in f.value && delimiter !in f.value && '\n' !in f.value && '\r' !in f.value
  }

  /** Rules 1 and 4: fields separated by the delimiter, the line ended by LF or CRLF. */
  function WriteRow(row: seq<Field>, delimiter: byte, crlf: bool): Text
    requires row != []
  {
    WriteField(row[0]) +
    (if |row| == 1 then (if crlf then "\r\n" else "\n")
     else [delimiter] + WriteRow(row[1..], delimiter, crlf))
  }

  datatype Line = Line(row: seq<Field>, crlf: bool)

  predicate AcceptedDelimiter(d: byte) {
    d !in {'\n', '\r', '\0', '\"'}
  }

  ghost predicate WritableLine(line: Line, delimiter: byte) {
    line.row != [] && forall i :: 0 <= i < |line.row| ==> Writable(line.row[i], delimiter)
  }

  ghost predicate WritableDocument(lines: seq<Line>, delimiter: byte) {
    forall i :: 0 <= i < |lines| ==> WritableLine(lines[i], delimiter)
  }

  function WriteDocument(lines: seq<Line>, delimiter: byte): Text
    requires forall i :: 0 <= i < |lines| ==> lines[i].row != []
  {
    if lines == [] then []
    else WriteRow(lines[0].row, delimiter, lines[0].crlf) + WriteDocument(lines[1..], delimiter)
  }

  function Kept(c: byte): Text {
    if c == '\r' then [] else [c]
  }

  /** The reader drops every carriage return, between quotes as well. */
  function DropCr(v: CStr): (r: CStr)
    ensures |r| <= |v|
    ensures r == v <==> '\r' !in v
  {
    if v == [] then [] else Kept(v[0]) + DropCr(v[1..])
  }

  /** What the reader makes of the fields of a row. */
  function Values(row: seq<Field>): seq<CStr> {
    seq(|row|, i requires 0 <= i < |row| => DropCr(row[i].value))
  }

  function AllValues(lines: seq<Line>): seq<seq<CStr>> {
    seq(|lines|, i requires 0 <= i < |lines| => Values(lines[i].row))
  }

  // ----- Reading back what was written

  lemma PlainChar(c: byte, t: Text, delimiter: byte, st: State)
    requires !st.inside && !st.lastQuote && st.quotes == 0
    requires c !in {'\"', '\r', '\n', delimiter}
    ensures RowFrom([c] + t, delimiter, st) == RowFrom(t, delimiter, st.(field := st.field + [c]))
  {
    hide Cut;
    assert ([c] + t)[1..] == t;
    assert TurnOf(st, c, delimiter) == GoOn(st.(field := st.field + [c]));
  }

  /** Unquoted characters are stored one after the other. */
  lemma {:induction false} PlainRun(v: CStr, t: Text, delimiter: byte, st: State)
    requires !st.inside && !st.lastQuote && st.quotes == 0
    requires '\"' !in v && '\r' !in v && '\n' !in v && delimiter !in v
    ensures RowFrom(v + t, delimiter, st) == RowFrom(t, delimiter, st.(field := st.field + v))
  {
    hide RowFrom;
    if v == [] {
      assert v + t == t && st.field + v == st.field;
    } else {
      assert v + t == [v[0]] + (v[1..] + t);
      PlainChar(v[0], v[1..] + t, delimiter, st);
      PlainRun(v[1..], t, delimiter, st.(field := st.field + [v[0]]));
      assert st.field + [v[0]] + v[1..] == st.field + v;
    }
  }

  /** Between the quotes, with `done` decoded so far. */
  ghost predicate Within(st: State, done: Text) {
    && st.inside && st.field == done && st.quotes % 2 == 0
    && (done == [] ==> st.lastQuote && st.quotes == 0)
  }

  lemma WithinChar(c: byte, t: Text, delimiter: byte, st: State, done: Text)
    requires Within(st, done) && c != '\"' && c != '\r'
    ensures var next := st.(field := done + [c], quotes := 0, lastQuote := false);
            Within(next, done + [c]) && RowFrom([c] + t, delimiter, st) == RowFrom(t, delimiter, next)
  {
    assert ([c] + t)[1..] == t;
  }

  /** The state after a quote that is not known yet to close the field. */
  function AfterQuote(st: State): State {
    st.(field := st.field + ['\"'], quotes := st.quotes + 1, inside := false, lastQuote := true)
  }

  lemma WithinQuote(t: Text, delimiter: byte, st: State, done: Text)
    requires Within(st, done) && AcceptedDelimiter(delimiter)
    ensures RowFrom(['\"'] + t, delimiter, st) == RowFrom(t, delimiter, AfterQuote(st))
  {
    assert (['\"'] + t)[1..] == t;
  }

  lemma SecondQuote(t: Text, delimiter: byte, st: State, done: Text)
    requires Within(st, done) && AcceptedDelimiter(delimiter)
    ensures var next := st.(field := done + ['\"'], quotes := st.quotes + 2, lastQuote := true);
            Within(next, done + ['\"']) && RowFrom(['\"'] + t, delimiter, AfterQuote(st)) == RowFrom(t, delimiter, next)
  {
    assert (['\"'] + t)[1..] == t;
    assert (done + ['\"'])[..|done|] == done;
  }

  lemma CrSkipped(t: Text, delimiter: byte, st: State)
    ensures RowFrom(['\r'] + t, delimiter, st) == RowFrom(t, delimiter, st)
  {
    assert (['\r'] + t)[1..] == t;
  }

  /** One character between the quotes, as it is written. */
  lemma QuotedChar(c: byte, t: Text, delimiter: byte, st: State, done: Text) returns (next: State)
    requires Within(st, done) && AcceptedDelimiter(delimiter)
    ensures Within(next, done + Kept(c)) && next.fields == st.fields
    ensures RowFrom((if c == '\"' then "\"\"" else [c]) + t, delimiter, st) == RowFrom(t, delimiter, next)
  {
    hide RowFrom;
    if c == '\"' {
      assert "\"\"" + t == ['\"'] + (['\"'] + t);
      WithinQuote(['\"'] + t, delimiter, st, done);
      SecondQuote(t, delimiter, st, done);
      next := st.(field := done + ['\"'], quotes := st.quotes + 2, lastQuote := true);
    } else if c == '\r' {
      CrSkipped(t, delimiter, st);
      assert done + [] == done;
      next := st;
    } else {
      WithinChar(c, t, delimiter, st, done);
      next := st.(field := done + [c], quotes := 0, lastQuote := false);
    }
  }

  lemma WrittenStep(v: CStr, t: Text)
    requires v != []
    ensures Doubled(v) + t == (if v[0] == '\"' then "\"\"" else [v[0]]) + (Doubled(v[1..]) + t)
  {
  }

  lemma DropStep(v: CStr, done: Text)
    requires v != []
    ensures done + Kept(v[0]) + DropCr(v[1..]) == done + DropCr(v)
  {
  }

  /** The body of a quoted field. */
  lemma {:induction false} QuotedRun(v: CStr, t: Text, delimiter: byte, st: State, done: Text) returns (last: State)
    requires Within(st, done) && AcceptedDelimiter(delimiter)
    ensures Within(last, done + DropCr(v)) && last.fields == st.fields
    ensures RowFrom(Doubled(v) + t, delimiter, st) == RowFrom(t, delimiter, last)
  {
    hide RowFrom, Within;
    if v == [] {
      assert Doubled(v) + t == t && done + DropCr(v) == done;
      last := st;
    } else {
      hide Doubled, DropCr;
      WrittenStep(v, t);
      DropStep(v, done);
      var next := QuotedChar(v[0], Doubled(v[1..]) + t, delimiter, st, done);
      last := QuotedRun(v[1..], t, delimiter, next, done + Kept(v[0]));
    }
  }

  /** At the start of a field. */
  ghost predicate AtStart(st: State) {
    st == State(false, [], 0, false, st.fields)
  }

  /** A complete field has been read: the next delimiter or line break ends it with this value. */
  ghost predicate Complete(st: State, value: CStr) {
    && !st.inside
    && if st.lastQuote then st.field == value + ['\"'] else st.field == value && st.quotes == 0
  }

  lemma FieldRead(f: Field, t: Text, delimiter: byte, st: State) returns (last: State)
    requires AtStart(st) && Writable(f, delimiter) && AcceptedDelimiter(delimiter)
    ensures Complete(last, DropCr(f.value)) && last.fields == st.fields && last.lastQuote == f.quoted
    ensures RowFrom(WriteField(f) + t, delimiter, st) == RowFrom(t, delimiter, last)
  {
    hide RowFrom;
    if f.quoted {
      var body := Doubled(f.value) + (['\"'] + t);
      var open := st.(inside := true, lastQuote := true);
      assert WriteField(f) + t == ['\"'] + body;
      OpenQuote(body, delimiter, st);
      var within := QuotedRun(f.value, ['\"'] + t, delimiter, open, []);
      WithinQuote(t, delimiter, within, DropCr(f.value));
      last := AfterQuote(within);
    } else {
      PlainRun(f.value, t, delimiter, st);
      assert st.field + f.value == f.value;
      last := st.(field := f.value);
    }
  }

  lemma OpenQuote(t: Text, delimiter: byte, st: State)
    requires AtStart(st)
    ensures RowFrom(['\"'] + t, delimiter, st) == RowFrom(t, delimiter, st.(inside := true, lastQuote := true))
  {
    assert (['\"'] + t)[1..] == t;
  }

  lemma FieldCut(st: State, value: CStr, c: byte)
    requires Complete(st, value) && c != '\"'
    ensures Track(st, c).Some?
    ensures var s := Track(st, c).value; !s.inside && s.quotes == 0 && s.fields == st.fields && Cut(s) == value
  {
    assert (value + ['\"'])[..|value|] == value;
    if st.field == [] && !st.lastQuote {
      assert Track(st, c) == Some(st);
    } else {
      assert Track(st, c) == Some(st.(quotes := 0));
    }
  }

  lemma DelimiterRead(t: Text, delimiter: byte, st: State, value: CStr)
    requires Complete(st, value) && AcceptedDelimiter(delimiter)
    ensures var next := State(false, [], 0, false, st.fields + [value]);
            AtStart(next) && RowFrom([delimiter] + t, delimiter, st) == RowFrom(t, delimiter, next)
  {
    hide Track, Cut;
    FieldCut(st, value, delimiter);
    assert ([delimiter] + t)[1..] == t;
  }

  lemma LineEndRead(t: Text, delimiter: byte, st: State, value: CStr, crlf: bool)
    requires Complete(st, value) && AcceptedDelimiter(delimiter)
    ensures RowFrom((if crlf then "\r\n" else "\n") + t, delimiter, st) == Row(st.fields + [value], t)
  {
    hide Track, Cut;
    FieldCut(st, value, '\n');
    var u := "\n" + t;
    assert u[1..] == t && RowFrom(u, delimiter, st) == Row(st.fields + [value], t);
    if crlf {
      assert ("\r\n" + t)[1..] == u;
    }
  }

  lemma {:induction false} RowRead(row: seq<Field>, crlf: bool, t: Text, delimiter: byte, st: State)
    requires row != [] && AtStart(st) && AcceptedDelimiter(delimiter)
    requires forall i :: 0 <= i < |row| ==> Writable(row[i], delimiter)
    ensures RowFrom(WriteRow(row, delimiter, crlf) + t, delimiter, st) == Row(st.fields + Values(row), t)
  {
    hide RowFrom, WriteField, Writable;
    if |row| == 1 {
      var end: Text := if crlf then "\r\n" else "\n";
      assert WriteRow(row, delimiter, crlf) + t == WriteField(row[0]) + (end + t);
      var last := FieldRead(row[0], end + t, delimiter, st);
      LineEndRead(t, delimiter, last, DropCr(row[0].value), crlf);
      assert Values(row) == [DropCr(row[0].value)];
    } else {
      var more := WriteRow(row[1..], delimiter, crlf) + t;
      assert WriteRow(row, delimiter, crlf) + t == WriteField(row[0]) + ([delimiter] + more);
      var last := FieldRead(row[0], [delimiter] + more, delimiter, st);
      DelimiterRead(more, delimiter, last, DropCr(row[0].value));
      RowRead(row[1..], crlf, t, delimiter, State(false, [], 0, false, st.fields + [DropCr(row[0].value)]));
      assert st.fields + [DropCr(row[0].value)] + Values(row[1..]) == st.fields + Values(row);
    }
  }

  /** Rule 2: the last line may lack its line break. */
  function WriteFields(row: seq<Field>, delimiter: byte): Text
    requires row != []
  {
    WriteField(row[0]) + (if |row| == 1 then [] else [delimiter] + WriteFields(row[1..], delimiter))
  }

  /** Such a line is read as the last row, unless nothing at all is written for it. */
  lemma {:induction false} LastRowRead(row: seq<Field>, delimiter: byte, st: State)
    requires row != [] && AtStart(st) && AcceptedDelimiter(delimiter)
    requires forall i :: 0 <= i < |row| ==> Writable(row[i], delimiter)
    ensures RowFrom(WriteFields(row, delimiter), delimiter, st)
         == if st.fields == [] && WriteFields(row, delimiter) == [] then NoRow else LastRow(st.fields + Values(row))
  {
    hide RowFrom, Writable, DropCr, WriteField;
    if |row| == 1 {
      assert WriteFields(row, delimiter) + [] == WriteField(row[0]) + [] == WriteField(row[0]);
      var last := FieldRead(row[0], [], delimiter, st);
      EndRead(delimiter, last, DropCr(row[0].value));
      assert Values(row) == [DropCr(row[0].value)];
      DropsNothing(row[0], delimiter);
    } else {
      hide WriteField;
      var more := WriteFields(row[1..], delimiter);
      assert WriteFields(row, delimiter) == WriteField(row[0]) + ([delimiter] + more);
      var last := FieldRead(row[0], [delimiter] + more, delimiter, st);
      DelimiterRead(more, delimiter, last, DropCr(row[0].value));
      LastRowRead(row[1..], delimiter, State(false, [], 0, false, st.fields + [DropCr(row[0].value)]));
      assert st.fields + [DropCr(row[0].value)] + Values(row[1..]) == st.fields + Values(row);
    }
  }

  lemma DropsNothing(f: Field, delimiter: byte)
    requires Writable(f, delimiter)
    ensures if f.quoted then WriteField(f) != [] else DropCr(f.value) == f.value == WriteField(f)
  {
  }

  lemma EndRead(delimiter: byte, st: State, value: CStr)
    requires Complete(st, value)
    ensures RowFrom([], delimiter, st)
         == if st.fields == [] && value == [] && !st.lastQuote then NoRow else LastRow(st.fields + [value])
  {
    hide Track, Cut;
    FieldCut(st, value, '\n');
  }

  /** A document written by the rules is read back row by row and field by field, and then there is no more. */
  lemma {:induction false} DocumentRead(lines: seq<Line>, delimiter: byte)
    requires WritableDocument(lines, delimiter) && AcceptedDelimiter(delimiter)
    ensures ReadRows(WriteDocument(lines, delimiter), delimiter) == AllValues(lines)
  {
    hide RowFrom, WriteRow, Values;
    var t := WriteDocument(lines, delimiter);
    if lines == [] {
      NothingRead(delimiter);
    } else {
      var rest := WriteDocument(lines[1..], delimiter);
      RowRead(lines[0].row, lines[0].crlf, rest, delimiter, START);
      RowNotEmpty(lines[0].row, delimiter, lines[0].crlf);
      assert [] + Values(lines[0].row) == Values(lines[0].row);
      DocumentRead(lines[1..], delimiter);
      assert [Values(lines[0].row)] + AllValues(lines[1..]) == AllValues(lines);
    }
  }

  /** The fields of a document as they were written. */
  function Contents(lines: seq<Line>): seq<seq<CStr>> {
    seq(|lines|, i requires 0 <= i < |lines| =>
      seq(|lines[i].row|, k requires 0 <= k < |lines[i].row| => lines[i].row[k].value))
  }

  ghost predicate HasNoCr(lines: seq<Line>) {
    forall i, k :: 0 <= i < |lines| && 0 <= k < |lines[i].row| ==> '\r' !in lines[i].row[k].value
  }

  /** A field written with a carriage return comes back without it. */
  lemma CarriageReturnLost()
    ensures var lines := [Line([Field("a\rb", true)], false)];
            WritableDocument(lines, ',') && ReadRows(WriteDocument(lines, ','), ',') == [["ab"]] != Contents(lines)
  {
    hide ReadRows, WriteDocument;
    var lines := [Line([Field("a\rb", true)], false)];
    var v: CStr := "a\rb";
    assert v[1..] == "\rb" && v[1..][1..] == "b" && v[1..][1..][1..] == "";
    assert DropCr("b") == "b" && DropCr("\rb") == "b" && DropCr(v) == "ab";
    DocumentRead(lines, ',');
    assert AllValues(lines)[0][0] == "ab" && |AllValues(lines)[0]| == 1;
    assert AllValues(lines)[0] == ["ab"];
    assert AllValues(lines) == [["ab"]];
    assert Contents(lines)[0][0] == v != "ab";
  }

  /** RFC 4180 lets a quoted field hold carriage returns. Reading gives a document back exactly when no field does. */
  lemma DocumentReadIff(lines: seq<Line>, delimiter: byte)
    requires WritableDocument(lines, delimiter) && AcceptedDelimiter(delimiter)
    ensures ReadRows(WriteDocument(lines, delimiter), delimiter) == Contents(lines) <==> HasNoCr(lines)
  {
    hide ReadRows, WriteDocument, DropCr;
    DocumentRead(lines, delimiter);
    if AllValues(lines) == Contents(lines) {
      forall i, k | 0 <= i < |lines| && 0 <= k < |lines[i].row| ensures '\r' !in lines[i].row[k].value {
        assert AllValues(lines)[i][k] == Contents(lines)[i][k];
      }
    }
    if HasNoCr(lines) {
      forall i | 0 <= i < |lines| ensures AllValues(lines)[i] == Contents(lines)[i] {
      }
    }
  }

  lemma NothingRead(delimiter: byte)
    ensures RowFrom([], delimiter, START) == NoRow
  {
  }

  lemma RowNotEmpty(row: seq<Field>, delimiter: byte, crlf: bool)
    requires row != []
    ensures WriteRow(row, delimiter, crlf) != []
  {
  }

  // ----- The parser object and its buffers

  /** realloc. */
  method Grow<T(0)>(a: array<T>, n: nat) returns (b: array<T>)
    requires a.Length <= n
    ensures fresh(b) && b.Length == n && b[..a.Length] == a[..]
  {
    b := new T[n];
    for i := 0 to a.Length
      modifies b
      invariant b[..i] == a[..i]
    {
      b[i] := a[i];
    }
  }

  const ACCEPTED_FIELDS: nat := 64
  const ACCEPTED_CHARS: nat := 64

  class CsvParser {
    const delimiter: byte
    const csvString: Option<CStr>
    var csvStringIter: nat
    var errMsg: Option<CStr>

    /** csv_parser_new_from_string. */
    constructor (csvString: Option<CStr>, delimiter: Option<byte>)
      ensures this.csvString == csvString && csvStringIter == 0 && errMsg == None
      ensures this.delimiter == match delimiter
                                case None => ','
                                case Some(d) => if d == '\n' || d == '\r' || d == '\"' then '\0' else d
    {
      this.csvString := csvString;
      this.delimiter := if delimiter.None? then ','
                        else if AcceptedDelimiter(delimiter.value) then delimiter.value
                        else '\0';
      csvStringIter := 0;
      errMsg := None;
    }

    /** csv_parser_getRow on an in-memory text, from a cursor that has not passed its terminator. The cursor passes
        it exactly when the text did not hold a line break for the row, or no row at all. */
    method GetRow() returns (row: Option<seq<CStr>>)
      requires delimiter == '\0' || AcceptedDelimiter(delimiter)
      requires csvString.Some? && delimiter != '\0' ==>
                 && csvStringIter <= |csvString.value|
                 && !QuoteLast(csvString.value[csvStringIter..], delimiter, START)
      modifies this
      ensures csvString.None? ==> row.None? && errMsg == Some("Supplied CSV string is NULL")
      ensures csvString.Some? && delimiter == '\0' ==>
                row.None? && errMsg == Some("Supplied delimiter is not supported")
      ensures csvString.None? || delimiter == '\0' ==> csvStringIter == old(csvStringIter)
      ensures csvString.Some? && delimiter != '\0' ==>
                var result := RowFrom(csvString.value[old(csvStringIter)..], delimiter, START);
                && row == RowOf(result)
                && csvStringIter == CursorAfter(csvString.value, result)
                && (csvStringIter <= |csvString.value| ==> result.Row?)
                && errMsg == if result.NoRow? then Some("Reached EOF") else old(errMsg)
    {
      if csvString.None? {
        errMsg := Some("Supplied CSV string is NULL");
        return None;
      }
      if delimiter == '\0' {
        errMsg := Some("Supplied delimiter is not supported");
        return None;
      }
      MisplacedIff(csvString.value[csvStringIter..], delimiter, START);
      row := ReadRow(csvString.value);
    }

    /** The loop of csv_parser_getRow. */
    method ReadRow(t: CStr) returns (row: Option<seq<CStr>>)
      requires csvString == Some(t) && AcceptedDelimiter(delimiter)
      requires csvStringIter <= |t| && !RowFrom(t[csvStringIter..], delimiter, START).Misplaced?
      modifies this
      ensures var result := RowFrom(t[old(csvStringIter)..], delimiter, START);
              && row == RowOf(result)
              && csvStringIter == CursorAfter(t, result)
              && errMsg == if result.NoRow? then Some("Reached EOF") else old(errMsg)
    {
      hide RowFrom, TurnOf, AtEnd, AcceptedDelimiter;
      ghost var goal := RowFrom(t[csvStringIter..], delimiter, START);
      var b := new RowBuffers();
      while true
        invariant csvStringIter <= |t| && errMsg == old(errMsg)
        invariant b.Valid() && fresh(b) && fresh(b.fields) && fresh(b.currField)
        invariant goal == RowFrom(t[csvStringIter..], delimiter, b.Current())
        decreases |t| - csvStringIter
      {
        ghost var rest := t[csvStringIter..];
        RowStep(rest, delimiter, b.Current());
        var currChar := At(t, csvStringIter);
        csvStringIter := csvStringIter + 1;
        if currChar == '\0' {
          row := b.Finish();
          errMsg := if row.None? then Some("Reached EOF") else errMsg;
          return;
        }
        assert rest[0] == currChar && t[csvStringIter..] == rest[1..];
        row := b.Consume(currChar, delimiter);
        if row.Some? {
          return;
        }
      }
    }
  }

  lemma RowStep(t: Text, delimiter: byte, st: State)
    ensures t == [] ==> RowFrom(t, delimiter, st) == AtEnd(st)
    ensures t != [] && TurnOf(st, t[0], delimiter).RowDone? ==>
              RowFrom(t, delimiter, st) == Row(TurnOf(st, t[0], delimiter).fields, t[1..])
    ensures t != [] && TurnOf(st, t[0], delimiter).GoOn? ==>
              RowFrom(t, delimiter, st) == RowFrom(t[1..], delimiter, TurnOf(st, t[0], delimiter).st)
  {
    hide TurnOf;
  }

  /** The local variables of csv_parser_getRow and the two buffers it grows. */
  class RowBuffers {
    var fields: array<CStr>
    var size: nat
    var numRowRealloc: nat
    var currField: array<byte>
    var currFieldCharIter: nat
    var insideComplexField: bool
    var seriesOfQuotesLength: nat
    var lastCharIsQuote: bool

    ghost predicate Valid()
      reads this
    {
      && size < fields.Length == (numRowRealloc + 1) * ACCEPTED_FIELDS
      && numRowRealloc == size / ACCEPTED_FIELDS
      && currFieldCharIter < currField.Length - 1
      && (seriesOfQuotesLength > 0 ==> currFieldCharIter > 0)
      && (lastCharIsQuote && currFieldCharIter == 0 ==> insideComplexField)
    }

    ghost function Current(): State
      requires size <= fields.Length && currFieldCharIter <= currField.Length
      reads this, fields, currField
    {
      State(insideComplexField, currField[..currFieldCharIter], seriesOfQuotesLength, lastCharIsQuote, fields[..size])
    }

    constructor ()
      ensures Valid() && fresh(fields) && fresh(currField) && Current() == START && !lastCharIsQuote
    {
      fields, size, numRowRealloc := new CStr[ACCEPTED_FIELDS], 0, 0;
      currField, currFieldCharIter := new byte[ACCEPTED_CHARS], 0;
      insideComplexField, seriesOfQuotesLength, lastCharIsQuote := false, 0, false;
    }

    /** The quote bookkeeping of one turn; `opens` when the character only opened a quoted field. */
    method TrackQuotes(c: byte) returns (opens: bool)
      requires Valid()
      modifies this`insideComplexField, this`seriesOfQuotesLength, this`currFieldCharIter, this`lastCharIsQuote
      ensures opens == Track(old(Current()), c).None?
      ensures opens ==> Valid() && c == '\"' && Current() == old(Current()).(inside := true, lastQuote := true)
      ensures !opens ==> currFieldCharIter <= old(currFieldCharIter) && Track(old(Current()), c) == Some(Current())
      ensures !opens && c != '\"' ==> Valid() && seriesOfQuotesLength == 0
      ensures !opens && c != '\"' ==> lastCharIsQuote == old(lastCharIsQuote)
      ensures !opens && c != '\"' ==> insideComplexField == old(insideComplexField)
    {
      opens := false;
      if currFieldCharIter == 0 && !lastCharIsQuote {
        if c == '\"' {
          insideComplexField, lastCharIsQuote, opens := true, true, true;
        }
      } else if c == '\"' {
        seriesOfQuotesLength := seriesOfQuotesLength + 1;
        insideComplexField := seriesOfQuotesLength % 2 == 0;
        if insideComplexField {
          assert currField[..currFieldCharIter][..currFieldCharIter - 1] == currField[..currFieldCharIter - 1];
          currFieldCharIter := currFieldCharIter - 1;
        }
      } else {
        seriesOfQuotesLength := 0;
      }
    }

    /** Store one character; the buffer is doubled when only its last byte is left. */
    method StoreChar(c: byte)
      requires size < fields.Length == (numRowRealloc + 1) * ACCEPTED_FIELDS && numRowRealloc == size / ACCEPTED_FIELDS
      requires currFieldCharIter < currField.Length - 1
      modifies this`currField, this`currFieldCharIter, this`lastCharIsQuote, currField
      ensures Valid() && (currField == old(currField) || fresh(currField))
      ensures lastCharIsQuote == (c == '\"')
      ensures Current() == old(Current()).(field := old(Current()).field + [c], lastQuote := c == '\"')
    {
      currField[currFieldCharIter] := c;
      currFieldCharIter := currFieldCharIter + 1;
      lastCharIsQuote := c == '\"';
      if currFieldCharIter == currField.Length - 1 {
        var grown := Grow(currField, currField.Length * 2);
        assert grown[..currFieldCharIter] == grown[..currField.Length][..currFieldCharIter];
        currField := grown;
      }
    }

    /** Terminate the field where its value ends, and store a copy of the string. */
    method EndField()
      requires Valid() && (lastCharIsQuote ==> currFieldCharIter > 0)
      modifies this`size, fields, currField
      ensures size == old(size) + 1 && fields[..size] == old(Current()).fields + [Cut(old(Current()))]
    {
      ghost var s := Current();
      var end := if lastCharIsQuote then currFieldCharIter - 1 else currFieldCharIter;
      currField[end] := '\0';
      StringEndsAt(currField[..], end);
      fields[size] := CString(currField[..]);
      size := size + 1;
      assert currField[..end] == s.field[..end];
      CutAt(s, end);
    }

    /** Room for another block of fields when one is full, and an empty buffer for the next field. */
    method NextField()
      requires 0 < size <= fields.Length == (numRowRealloc + 1) * ACCEPTED_FIELDS
      requires numRowRealloc == (size - 1) / ACCEPTED_FIELDS && seriesOfQuotesLength == 0
      modifies this
      ensures Valid() && (fields == old(fields) || fresh(fields)) && fresh(currField) && !lastCharIsQuote
      ensures Current() == State(false, [], 0, false, old(fields[..size]))
    {
      if size != 0 && size % ACCEPTED_FIELDS == 0 {
        var grown := Grow(fields, (numRowRealloc + 2) * ACCEPTED_FIELDS);
        assert grown[..size] == grown[..fields.Length][..size];
        fields, numRowRealloc := grown, numRowRealloc + 1;
      }
      currField, currFieldCharIter := new byte[ACCEPTED_CHARS], 0;
      insideComplexField, lastCharIsQuote := false, false;
    }

    /** One turn of the loop; a row when it is complete. */
    method Consume(currChar: byte, delimiter: byte) returns (row: Option<seq<CStr>>)
      requires Valid() && AcceptedDelimiter(delimiter)
      modifies this, fields, currField
      ensures fields == old(fields) || fresh(fields)
      ensures currField == old(currField) || fresh(currField)
      ensures match TurnOf(old(Current()), currChar, delimiter)
              case GoOn(s) => row.None? && Valid() && Current() == s
              case RowDone(done) => row == Some(done)
    {
      hide Cut, Track;
      row := None;
      if currChar == '\r' {
        return;
      }
      var opens := TrackQuotes(currChar);
      if opens {
        return;
      }
      if (currChar == delimiter || currChar == '\n') && !insideComplexField {
        EndField();
        if currChar == '\n' {
          return Some(fields[..size]);
        }
        NextField();
      } else {
        StoreChar(currChar);
      }
    }

    /** The turn that meets the end of the text. */
    method Finish() returns (row: Option<seq<CStr>>)
      requires Valid() && !AtEnd(Current()).Misplaced?
      modifies this, fields, currField
      ensures match AtEnd(old(Current()))
              case NoRow => row.None?
              case LastRow(done) => row == Some(done)
              case _ => false
    {
      hide Cut;
      ghost var st := Current();
      if currFieldCharIter == 0 && size == 0 {
        return None;
      }
      assert st.fields != [] || st.field != [];
      assert !(st.field == [] && st.lastQuote);
      var opens := TrackQuotes('\n');
      EndField();
      row := Some(fields[..size]);
    }
  }

  lemma CutAt(s: State, end: nat)
    requires s.lastQuote ==> s.field != []
    requires end == if s.lastQuote then |s.field| - 1 else |s.field|
    ensures Cut(s) == CString(s.field[..end])
  {
    assert s.field[..|s.field|] == s.field;
  }

  lemma {:induction false} StringEndsAt(t: Text, end: nat)
    requires end < |t| && t[end] == '\0'
    ensures CString(t) == CString(t[..end])
  {
    if end > 0 && t[0] != '\0' {
      StringEndsAt(t[1..], end - 1);
      assert t[1..][..end - 1] == t[..end][1..];
    }
  }

  function RowOf(result: RowResult): Option<seq<CStr>> {
    match result
    case LastRow(fields) => Some(fields)
    case Row(fields, _) => Some(fields)
    case _ => None
  }

  /** At the end of the text the cursor moves past the terminator. */
  function CursorAfter(t: Text, result: RowResult): int {
    match result
    case Row(_, rest) => |t| - |rest|
    case _ => |t| + 1
  }

  /** What one call returns on what is left of a document. */
  lemma NextRow(lines: seq<Line>, delimiter: byte)
    requires WritableDocument(lines, delimiter) && AcceptedDelimiter(delimiter)
    ensures RowFrom(WriteDocument(lines, delimiter), delimiter, START)
         == if lines == [] then NoRow
            else Row(Values(lines[0].row), WriteDocument(lines[1..], delimiter))
  {
    hide RowFrom, WriteRow, Values;
    if lines == [] {
      NothingRead(delimiter);
    } else {
      RowRead(lines[0].row, lines[0].crlf, WriteDocument(lines[1..], delimiter), delimiter, START);
      assert [] + Values(lines[0].row) == Values(lines[0].row);
    }
  }

  /** A caller that asks for rows until it gets NULL, on a document written by the rules. */
  method ReadDocument(text: CStr, delimiter: byte, ghost lines: seq<Line>) returns (rows: seq<seq<CStr>>)
    requires WritableDocument(lines, delimiter) && AcceptedDelimiter(delimiter)
    requires text == WriteDocument(lines, delimiter)
    ensures rows == AllValues(lines)
  {
    hide RowFrom, WriteDocument, Values;
    var parser := new CsvParser(Some(text), Some(delimiter));
    ghost var left := lines;
    rows := [];
    assert text[0..] == text;
    while true
      invariant parser.csvString == Some(text) && parser.delimiter == delimiter
      invariant parser.csvStringIter <= |text| && WritableDocument(left, delimiter)
      invariant text[parser.csvStringIter..] == WriteDocument(left, delimiter)
      invariant rows + AllValues(left) == AllValues(lines)
      decreases |left|
    {
      NextRow(left, delimiter);
      MisplacedIff(text[parser.csvStringIter..], delimiter, START);
      var row := parser.GetRow();
      if row.None? {
        return;
      }
      ghost var rest := WriteDocument(left[1..], delimiter);
      NextLeft(text, left, delimiter, parser.csvStringIter);
      assert AllValues(left) == [Values(left[0].row)] + AllValues(left[1..]);
      rows := rows + [row.value];
      left := left[1..];
    }
  }

  lemma NextLeft(text: Text, left: seq<Line>, delimiter: byte, next: int)
    requires left != [] && WritableDocument(left, delimiter)
    requires next == |text| - |WriteDocument(left[1..], delimiter)|
    requires exists i :: 0 <= i <= |text| && text[i..] == WriteDocument(left, delimiter)
    ensures 0 <= next <= |text| && text[next..] == WriteDocument(left[1..], delimiter)
  {
    var i :| 0 <= i <= |text| && text[i..] == WriteDocument(left, delimiter);
    var first := WriteRow(left[0].row, delimiter, left[0].crlf);
    assert text[i..][|first|..] == WriteDocument(left[1..], delimiter);
    assert text[i + |first|..] == text[i..][|first|..];
  }
}
