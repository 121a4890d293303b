/** What csv_parser_getRow makes of any text, read field by field and quote run by quote run. */
module CsvReading {
  import opened Bytes
  import opened Csv

  // ----- Fields and rows

  function WithoutCr(t: Text): (r: Text)
    ensures '\r' !in r && ('\0' !in t ==> '\0' !in r)
  {
    if t == [] then [] else if t[0] == '\r' then WithoutCr(t[1..]) else [t[0]] + WithoutCr(t[1..])
  }

  /** The number of quotes a text starts with. */
  function Run(t: Text): (k: nat)
    ensures k <= |t|
  {
    if Head(t) == '\"' then 1 + Run(t[1..]) else 0
  }

  function Quotes(n: nat): CStr {
    seq(n, _ => '\"')
  }

  predicate Ends(t: Text, delimiter: byte) {
    t != [] && (t[0] == delimiter || t[0] == '\n')
  }

  /** The value of a field, its opening quote aside, and the text from its terminator on. Of a run of quotes every
      second one is left out, and one more when the field ends behind it. An odd run leaves quoting, an even one
      enters it. */
  function ReadField(t: CStr, inside: bool, delimiter: byte): (r: (CStr, CStr))
    ensures |r.1| <= |t| && (r.1 != [] ==> Ends(r.1, delimiter))
    ensures '\r' !in t ==> '\r' !in r.1
    decreases |t|
  {
    var k := Run(t);
    var u := t[k..];
    if k > 0 && (u == [] || (k % 2 == 1 && Ends(u, delimiter))) then (Quotes((k - 1) / 2), u)
    else if k > 0 then
      var (v, rest) := ReadField(u, k % 2 == 0, delimiter);
      (Quotes((k + 1) / 2) + v, rest)
    else if t == [] || (!inside && Ends(t, delimiter)) then ([], t)
    else
      var (v, rest) := ReadField(t[1..], inside, delimiter);
      ([t[0]] + v, rest)
  }

  /** A row, behind the fields read so far. */
  function ReadRow(t: CStr, delimiter: byte, fields: seq<CStr>): RowResult
    decreases |t|
  {
    if fields == [] && (t == [] || t == "\"") then NoRow
    else if t == "\"" then Misplaced
    else
      var quoted := Head(t) == '\"';
      var (v, rest) := ReadField(if quoted then t[1..] else t, quoted, delimiter);
      if rest == [] then LastRow(fields + [v])
      else if rest[0] == '\n' then Row(fields + [v], rest[1..])
      else ReadRow(rest[1..], delimiter, fields + [v])
  }

  // ----- Carriage returns

  /** The same answer, with the carriage returns left out of the text that follows. */
  function Sans(r: RowResult): RowResult {
    match r
    case Row(fields, rest) => Row(fields, WithoutCr(rest))
    case _ => r
  }

  lemma {:induction false} CrIgnored(t: Text, delimiter: byte, st: State)
    ensures Sans(RowFrom(t, delimiter, st)) == Sans(RowFrom(WithoutCr(t), delimiter, st))
  {
    hide Cut, Track;
    if t != [] {
      RowStep(t, delimiter, st);
      QuoteGoesOn(st, t[0], delimiter);
      var turn := TurnOf(st, t[0], delimiter);
      if t[0] != '\r' {
        RowStep(WithoutCr(t), delimiter, st);
        assert WithoutCr(t)[1..] == WithoutCr(t[1..]);
        NoCrLeft(WithoutCr(t[1..]));
      }
      hide RowFrom, TurnOf;
      if turn.GoOn? {
        CrIgnored(t[1..], delimiter, turn.st);
      }
    }
  }

  lemma {:induction false} NoCrLeft(t: Text)
    requires '\r' !in t
    ensures WithoutCr(t) == t
  {
    if t != [] {
      NoCrLeft(t[1..]);
    }
  }

  // ----- One field

  /** The state behind `k` quotes. */
  function AfterRun(st: State, k: nat): State
    requires k > 0
  {
    st.(field := st.field + Quotes((k + 1) / 2), quotes := k, inside := k % 2 == 0, lastQuote := true)
  }

  lemma OneQuote(st: State, delimiter: byte)
    requires AcceptedDelimiter(delimiter) && st.quotes == 0 && (st.field != [] || st.lastQuote)
    ensures TurnOf(st, '\"', delimiter) == GoOn(AfterRun(st, 1))
  {
    hide Cut;
    assert Quotes(1) == ['\"'];
  }

  lemma NextQuote(st: State, k: nat, delimiter: byte)
    requires AcceptedDelimiter(delimiter) && k > 0
    ensures TurnOf(AfterRun(st, k), '\"', delimiter) == GoOn(AfterRun(st, k + 1))
  {
    hide Cut;
    var n := (k + 1) / 2;
    assert Quotes(n + 1) == Quotes(n) + ['\"'];
    if k % 2 == 1 {
      assert Quotes(n) == Quotes(n - 1) + ['\"'];
      assert (st.field + Quotes(n))[..|st.field| + n - 1] + ['\"'] == st.field + Quotes(n);
    } else {
      assert (st.field + Quotes(n)) + ['\"'] == st.field + Quotes(n + 1);
    }
  }

  lemma {:induction false} RunRead(t: CStr, delimiter: byte, st: State, k: nat)
    requires AcceptedDelimiter(delimiter) && st.quotes == 0 && (st.field != [] || st.lastQuote)
    requires 0 < k <= Run(t)
    ensures RowFrom(t, delimiter, st) == RowFrom(t[k..], delimiter, AfterRun(st, k))
    ensures Run(t[k..]) == Run(t) - k
  {
    hide TurnOf, AfterRun;
    if k == 1 {
      OneQuote(st, delimiter);
      RowStep(t, delimiter, st);
    } else {
      RunRead(t, delimiter, st, k - 1);
      var u := t[k - 1..];
      NextQuote(st, k - 1, delimiter);
      RowStep(u, delimiter, AfterRun(st, k - 1));
      assert u[1..] == t[k..];
    }
  }

  /** A state in which ReadField tells what follows: the run of quotes before it, if any, is complete. */
  ghost predicate Ready(t: CStr, delimiter: byte, st: State) {
    && '\r' !in t
    && (t == [] ==> !st.lastQuote && (st.field != [] || st.fields != []))
    && (st.lastQuote && !st.inside ==> !Ends(t, delimiter))
    && (Head(t) == '\"' ==> st.field != [] || st.lastQuote)
    && (st.quotes != 0 ==> st.field != [] && Head(t) != '\"')
  }

  function NextField(fields: seq<CStr>): State {
    State(false, [], 0, false, fields)
  }

  /** What reading goes on to, when a field ends before `rest`. */
  function FieldDone(fields: seq<CStr>, rest: CStr, delimiter: byte): RowResult {
    if rest == [] then LastRow(fields)
    else if rest[0] == '\n' then Row(fields, rest[1..])
    else RowFrom(rest[1..], delimiter, NextField(fields))
  }

  /** A field ends before `rest`; a quote directly before its end is left out. */
  lemma FieldEnds(rest: CStr, delimiter: byte, st: State)
    requires AcceptedDelimiter(delimiter) && '\0' !in st.field
    requires if rest == [] then st.field != [] || (st.fields != [] && !st.lastQuote)
             else Ends(rest, delimiter) && !st.inside && (st.field == [] ==> st.quotes == 0 && !st.lastQuote)
    ensures var v := if st.lastQuote then st.field[..|st.field| - 1] else st.field;
            RowFrom(rest, delimiter, st) == FieldDone(st.fields + [v], rest, delimiter)
  {
  }

  /** A character that belongs to the field. */
  lemma CharRead(t: CStr, delimiter: byte, st: State)
    requires AcceptedDelimiter(delimiter) && Ready(t, delimiter, st) && t != [] && t[0] != '\"'
    requires st.inside || !Ends(t, delimiter)
    ensures RowFrom(t, delimiter, st)
         == RowFrom(t[1..], delimiter, st.(field := st.field + [t[0]], quotes := 0, lastQuote := false))
  {
    hide Cut;
  }

  /** The field goes on with `front` and then as `st` says. */
  lemma FieldGoesOn(st: State, more: State, front: CStr, v: CStr, rest: CStr, delimiter: byte)
    requires more.field == st.field + front && more.fields == st.fields && '\0' !in more.field
    ensures FieldDone(more.fields + [more.field + v], rest, delimiter)
         == FieldDone(st.fields + [st.field + (front + v)], rest, delimiter)
  {
    hide FieldDone;
    assert more.field + v == st.field + (front + v);
  }

  lemma {:induction false} FieldRead(t: CStr, delimiter: byte, st: State)
    requires AcceptedDelimiter(delimiter) && Ready(t, delimiter, st) && '\0' !in st.field
    ensures var (v, rest) := ReadField(t, st.inside, delimiter);
            RowFrom(t, delimiter, st) == FieldDone(st.fields + [st.field + v], rest, delimiter)
    decreases |t|
  {
    hide RowFrom, AcceptedDelimiter, FieldDone, Run;
    var k := Run(t);
    if k > 0 {
      QuotesRead(t, delimiter, st);
    } else if t == [] || (!st.inside && Ends(t, delimiter)) {
      NoRun(t);
      FieldEnds(t, delimiter, st);
      assert st.field + [] == st.field;
    } else {
      NoRun(t);
      CharRead(t, delimiter, st);
      var more := st.(field := st.field + [t[0]], quotes := 0, lastQuote := false);
      FieldRead(t[1..], delimiter, more);
      var (v, rest) := ReadField(t[1..], st.inside, delimiter);
      FieldGoesOn(st, more, [t[0]], v, rest, delimiter);
    }
  }

  lemma NoRun(t: Text)
    ensures Run(t) == 0 <==> Head(t) != '\"'
  {
  }

  lemma {:induction false} QuotesRead(t: CStr, delimiter: byte, st: State)
    requires AcceptedDelimiter(delimiter) && Ready(t, delimiter, st) && '\0' !in st.field && Run(t) > 0
    ensures var (v, rest) := ReadField(t, st.inside, delimiter);
            RowFrom(t, delimiter, st) == FieldDone(st.fields + [st.field + v], rest, delimiter)
    decreases |t|, 0
  {
    hide RowFrom, AcceptedDelimiter, FieldDone, Run;
    var k := Run(t);
    var u := t[k..];
    NoRun(t);
    NoRun(u);
    RunRead(t, delimiter, st, k);
    var after := AfterRun(st, k);
    if u == [] || (k % 2 == 1 && Ends(u, delimiter)) {
      FieldEnds(u, delimiter, after);
      LastQuoteOff(st.field, k);
    } else {
      FieldRead(u, delimiter, after);
      var (v, rest) := ReadField(u, k % 2 == 0, delimiter);
      FieldGoesOn(st, after, Quotes((k + 1) / 2), v, rest, delimiter);
    }
  }

  lemma LastQuoteOff(field: Text, k: nat)
    requires k > 0
    ensures var f := field + Quotes((k + 1) / 2); f[..|f| - 1] == field + Quotes((k - 1) / 2)
  {
  }

  lemma {:induction false} RowRead(t: CStr, delimiter: byte, fields: seq<CStr>)
    requires AcceptedDelimiter(delimiter) && '\r' !in t
    ensures RowFrom(t, delimiter, NextField(fields)) == ReadRow(t, delimiter, fields)
    decreases |t|
  {
    hide RowFrom, ReadField, AcceptedDelimiter;
    if t == "\"" || (fields == [] && t == []) {
      NothingRead(t, delimiter, fields);
    } else {
      var quoted := Head(t) == '\"';
      var st, u := NextField(fields), t;
      if quoted {
        Opening(t, delimiter, fields);
        st, u := st.(inside := true, lastQuote := true), t[1..];
      }
      FieldRead(u, delimiter, st);
      var (v, rest) := ReadField(u, quoted, delimiter);
      assert [] + v == v;
      if rest != [] && rest[0] != '\n' {
        RowRead(rest[1..], delimiter, fields + [v]);
      }
    }
  }

  lemma NothingRead(t: CStr, delimiter: byte, fields: seq<CStr>)
    requires AcceptedDelimiter(delimiter) && (t == "\"" || (fields == [] && t == []))
    ensures RowFrom(t, delimiter, NextField(fields)) == if fields == [] then NoRow else Misplaced
  {
    if t == "\"" {
      Opening(t, delimiter, fields);
      assert t[1..] == [];
    }
  }

  lemma Opening(t: CStr, delimiter: byte, fields: seq<CStr>)
    requires Head(t) == '\"'
    ensures RowFrom(t, delimiter, NextField(fields))
         == RowFrom(t[1..], delimiter, NextField(fields).(inside := true, lastQuote := true))
  {
  }

  /** `rest` is what follows a line break of `t`. */
  predicate BehindLine(t: Text, rest: Text) {
    |rest| < |t| && t[|t| - |rest| - 1..] == "\n" + rest
  }

  /** What follows a row follows a line break. */
  lemma {:induction false} RestBehindLine(t: Text, delimiter: byte, st: State)
    ensures var r := RowFrom(t, delimiter, st); r.Row? ==> BehindLine(t, r.rest)
  {
    hide Cut, Track;
    if t != [] {
      RowStep(t, delimiter, st);
      hide RowFrom;
      if TurnOf(st, t[0], delimiter).GoOn? {
        RestBehindLine(t[1..], delimiter, TurnOf(st, t[0], delimiter).st);
      }
    }
  }

  /** Every text is read as ReadRow reads what is left of it without its carriage returns, and what follows the row
      follows a line break. */
  lemma RowExact(t: CStr, delimiter: byte)
    requires AcceptedDelimiter(delimiter)
    ensures Sans(RowFrom(t, delimiter, START)) == ReadRow(WithoutCr(t), delimiter, [])
    ensures var r := RowFrom(t, delimiter, START); r.Row? ==> BehindLine(t, r.rest)
  {
    hide RowFrom, ReadRow;
    RestBehindLine(t, delimiter, START);
    CrIgnored(t, delimiter, START);
    RowRead(WithoutCr(t), delimiter, []);
    RestBehindLine(WithoutCr(t), delimiter, START);
    var u, r := WithoutCr(t), ReadRow(WithoutCr(t), delimiter, []);
    if r.Row? {
      assert forall c :: c in r.rest ==> c in u[|u| - |r.rest| - 1..];
      NoCrLeft(r.rest);
    }
  }
}
