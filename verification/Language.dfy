/** The parser accepts nothing but documents: every accepted text is one, and its value is what it stands for. */
module Language {
  import opened Bytes
  import opened StringCodec
  import opened Json
  import opened Grammar
  import opened Parser
  import opened RoundTrip

  /** What `strtod` makes of a text depends only on the bytes it reads, as long as none that could go on follows. */
  ghost predicate Stable(lib: Libc) {
    forall t: Text :: lib.strtod(t).consumed > 0 ==>
      var p := t[..lib.strtod(t).consumed]; ReadWhole(lib, p) && lib.strtod(p) == lib.strtod(t)
  }

  lemma {:induction false} SkipSplit(t: Text) returns (w: Text)
    ensures AllSpace(w) && t == w + SkipSpace(t)
  {
    if IsSpace(Head(t)) {
      w := SkipSplit(t[1..]);
      w := [t[0]] + w;
    } else {
      w := [];
    }
  }

  /** The text is a document that is taken and stands for `v`, followed by `rest`. */
  ghost predicate Is(lib: Libc, t: Text, d: Doc, v: Json, rest: Text) {
    && t == Write(d, rest)
    && Tokens(lib, d) && Spaced(d) && NumeralsTaken(lib, d) && Meaning(lib, d) == v
  }

  /** An accepted text, something of which is read, is, behind its whitespace, a document that stands for the value,
      followed by the rest. Nothing is read only of a sign that no number follows. */
  lemma {:induction false} AcceptedIsDocument(lib: Libc, t: Text, nesting: nat) returns (d: Doc)
    requires Stable(lib) && ParseValue(lib, t, nesting).Success?
    requires ParseValue(lib, t, nesting).rest != SkipSpace(t)
    ensures Is(lib, SkipSpace(t), d, ParseValue(lib, t, nesting).value, ParseValue(lib, t, nesting).rest)
    decreases |t|, 2
  {
    hide ParseNumber, ParseString, ParseBoolean, ParseNull, ParseArray, ParseObject, SkipSpace, Is, Stable;
    var u := SkipSpace(t);
    var p := ParseValue(lib, t, nesting);
    if Head(u) == '{' {
      d := ObjectDocument(lib, u, nesting + 1);
    } else if Head(u) == '[' {
      d := ArrayDocument(lib, u, nesting + 1);
    } else {
      d := ScalarDocument(lib, u, p.value, p.rest);
    }
  }

  lemma ScalarDocument(lib: Libc, u: Text, v: Json, rest: Text) returns (d: Doc)
    requires Stable(lib) && rest != u
    requires if Head(u) == '\"' then ParseString(u) == Success(v, rest)
             else if Head(u) == 'f' || Head(u) == 't' then ParseBoolean(u) == Success(v, rest)
             else if StartsNumber(Head(u)) then ParseNumber(lib, u) == Success(v, rest)
             else ParseNull(u) == Success(v, rest)
    ensures Is(lib, u, d, v, rest)
  {
    hide ParseNumber, Stable, ReadWhole, Is, ParseString, ParseBoolean, ParseNull;
    if Head(u) == '\"' {
      d := StringDocument(lib, u, v, rest);
    } else if StartsNumber(Head(u)) {
      d := NumeralDocument(lib, u, v, rest);
    } else {
      d := Fixed(v);
      FixedDocument(lib, u, v, rest);
    }
  }

  lemma StringDocument(lib: Libc, u: Text, v: Json, rest: Text) returns (d: Doc)
    requires ParseString(u) == Success(v, rest)
    ensures Is(lib, u, d, v, rest)
  {
    hide GetQuoted, WriteString, StringValue, Legal;
    var pieces := LiteralPieces(u);
    d := Literal(pieces);
  }

  lemma FixedDocument(lib: Libc, u: Text, v: Json, rest: Text)
    requires ParseBoolean(u) == Success(v, rest) || ParseNull(u) == Success(v, rest)
    ensures Is(lib, u, Fixed(v), v, rest)
  {
  }

  lemma NumeralDocument(lib: Libc, u: Text, v: Json, rest: Text) returns (d: Doc)
    requires Stable(lib) && rest != u && StartsNumber(Head(u)) && ParseNumber(lib, u) == Success(v, rest)
    ensures Is(lib, u, d, v, rest)
  {
    hide Is, Stable, ReadWhole, IsDecimal, ParseNumber, StartsNumber, PlainNumeral, MinusOrDigit;
    var n := lib.strtod(u).consumed;
    NumeralRead(lib, u, v, rest);
    NumeralPrefix(lib, u);
    DecimalPrefix(u, n);
    PlainIff(u[..n], n);
    d := Numeral(u[..n]);
    NumeralIs(lib, u[..n], rest);
    assert u == u[..n] + rest;
  }

  lemma NumeralIs(lib: Libc, text: Text, rest: Text)
    requires ReadWhole(lib, text) && MinusOrDigit(Head(text)) && Taken(lib, text)
    ensures Is(lib, text + rest, Numeral(text), Num(NumberOf(lib, text)), rest)
  {
    hide ReadWhole, Taken, NumberOf, MinusOrDigit;
  }

  lemma NumeralRead(lib: Libc, u: Text, v: Json, rest: Text)
    requires rest != u && ParseNumber(lib, u) == Success(v, rest)
    ensures var r := lib.strtod(u);
            && 0 < r.consumed && rest == u[r.consumed..] && IsDecimal(u, r.consumed)
            && r.inRange && r.value.Some? && v == Num(r.value.value)
  {
    hide IsDecimal;
    assert u[0..] == u;
  }

  lemma NumeralPrefix(lib: Libc, u: Text)
    requires Stable(lib) && lib.strtod(u).consumed > 0
    ensures var p := u[..lib.strtod(u).consumed]; ReadWhole(lib, p) && lib.strtod(p) == lib.strtod(u)
  {
    hide ReadWhole;
  }

  lemma DecimalPrefix(u: Text, n: nat)
    requires n <= |u|
    ensures IsDecimal(u[..n], n) == IsDecimal(u, n)
  {
    assert forall i :: 0 <= i < n ==> u[..n][i] == u[i];
  }

  // ----- Arrays

  ghost predicate ItemsTaken(lib: Libc, items: seq<Item>) {
    forall i :: 0 <= i < |items| ==> NumeralsTaken(lib, items[i].value)
  }

  lemma {:induction false} ArrayDocument(lib: Libc, u: Text, nesting: nat) returns (d: Doc)
    requires Stable(lib) && ParseArray(lib, u, nesting).Success?
    ensures Is(lib, u, d, ParseArray(lib, u, nesting).value, ParseArray(lib, u, nesting).rest)
    decreases |u|, 1
  {
    hide ParseElements, SkipSpace, Is, Stable, Write, WriteItems, ItemsReady, ItemsTaken, ItemValues, AllSpace;
    var p := ParseArray(lib, u, nesting);
    var gap := SkipSplit(u[1..]);
    var x := SkipSpace(u[1..]);
    if Head(x) == ']' {
      d := Array([], gap);
      assert x == "]" + p.rest;
      NoItems(lib);
      ArrayReads(lib, u, [], gap, [], p.rest);
    } else {
      var items := ElementsDocument(lib, gap, x, nesting, []);
      d := Array(items, []);
      NoSpace();
      assert [] + ItemValues(lib, items) == ItemValues(lib, items);
      ArrayReads(lib, u, items, [], ItemValues(lib, items), p.rest);
    }
  }

  lemma ArrayReads(lib: Libc, u: Text, items: seq<Item>, gap: Text, vs: seq<Json>, rest: Text)
    requires ItemsReady(lib, items) && ItemsTaken(lib, items) && ItemValues(lib, items) == vs && AllSpace(gap)
    requires u == "[" + if items == [] then gap + ("]" + rest) else WriteItems(items, "]" + rest)
    ensures Is(lib, u, Array(items, gap), Arr(vs), rest)
  {
    hide Write, WriteItems, ItemsReady, ItemValues, Tokens, Spaced, NumeralsTaken, Meaning, AllSpace;
    WriteArrayIs(items, gap, rest);
    ArrayMeans(lib, items, gap, vs);
    ArrayTaken(lib, items, gap);
  }

  /** What a successful turn of parse_array_value's loop found. */
  lemma ElementsSucceed(lib: Libc, x: Text, nesting: nat, acc: seq<Json>)
    requires ParseElements(lib, x, nesting, acc).Success?
    ensures ParseValue(lib, x, nesting).Success?
    ensures var q, p := ParseValue(lib, x, nesting), ParseElements(lib, x, nesting, acc);
            var t4, more := SkipSpace(q.rest), acc + [q.value];
            if Head(t4) == ',' then p == ParseElements(lib, SkipSpace(t4[1..]), nesting, more)
            else t4 == "]" + p.rest && p.value == Arr(more)
  {
    hide ParseValue, SkipSpace;
  }

  lemma {:induction false} ElementsDocument(lib: Libc, gap: Text, x: Text, nesting: nat, acc: seq<Json>)
    returns (items: seq<Item>)
    requires Stable(lib) && AllSpace(gap) && !IsSpace(Head(x)) && ParseElements(lib, x, nesting, acc).Success?
    ensures items != [] && ItemsReady(lib, items) && ItemsTaken(lib, items)
    ensures var p := ParseElements(lib, x, nesting, acc);
            p.value == Arr(acc + ItemValues(lib, items)) && gap + x == WriteItems(items, "]" + p.rest)
    decreases |x|, 3
  {
    hide ParseValue, ParseElements, SkipSpace, Stable, Is, ItemsReady, ItemsTaken, ItemValues, WriteItems, AllSpace;
    ElementsSucceed(lib, x, nesting, acc);
    var p, q := ParseElements(lib, x, nesting, acc), ParseValue(lib, x, nesting);
    var v, t3 := q.value, q.rest;
    var after := SkipSplit(t3);
    var t4 := SkipSpace(t3);
    NotUnreadBehind(lib, x, nesting);
    SkipNothing(x);
    var d := AcceptedIsDocument(lib, x, nesting);
    var item := Item(gap, d, after);
    var more: seq<Item>;
    if Head(t4) == ',' {
      var gap' := SkipSplit(t4[1..]);
      more := ElementsDocument(lib, gap', SkipSpace(t4[1..]), nesting, acc + [v]);
      assert t4 == "," + WriteItems(more, "]" + p.rest);
    } else {
      more := [];
      NoItems(lib);
    }
    ItemJoins(lib, item, x, v, t3, t4, more, "]" + p.rest);
    items := [item] + more;
    AppendAssoc(acc, v, ItemValues(lib, more));
  }

  lemma AppendAssoc<T>(acc: seq<T>, v: T, vs: seq<T>)
    ensures acc + [v] + vs == acc + ([v] + vs) && acc + [v] + [] == acc + [v]
  {
  }

  lemma NoItems(lib: Libc)
    ensures ItemsReady(lib, []) && ItemsTaken(lib, []) && ItemValues(lib, []) == []
  {
  }

  lemma ItemJoins(lib: Libc, item: Item, x: Text, v: Json, t3: Text, t4: Text, more: seq<Item>, tail: Text)
    requires AllSpace(item.before) && AllSpace(item.after) && Is(lib, x, item.value, v, t3) && t3 == item.after + t4
    requires ItemsReady(lib, more) && ItemsTaken(lib, more)
    requires t4 == if more == [] then tail else "," + WriteItems(more, tail)
    ensures var items := [item] + more;
            && ItemsReady(lib, items) && ItemsTaken(lib, items)
            && ItemValues(lib, items) == [v] + ItemValues(lib, more)
            && item.before + x == WriteItems(items, tail)
  {
    hide ItemsReady, Tokens, Spaced, NumeralsTaken, Meaning, Write, AllSpace;
    ItemsCons(lib, item, more);
    var items := [item] + more;
    assert items[1..] == more && |items| == 1 + |more|;
  }

  // ----- Objects

  ghost predicate EntriesTaken(lib: Libc, entries: seq<Entry>) {
    forall i :: 0 <= i < |entries| ==> NumeralsTaken(lib, entries[i].item.value)
  }

  lemma {:induction false} ObjectDocument(lib: Libc, u: Text, nesting: nat) returns (d: Doc)
    requires Stable(lib) && ParseObject(lib, u, nesting).Success?
    ensures Is(lib, u, d, ParseObject(lib, u, nesting).value, ParseObject(lib, u, nesting).rest)
    decreases |u|, 1
  {
    hide ParseMembers, SkipSpace, Is, Stable, Write, WriteEntries, EntriesReady, EntriesTaken, EntryMembers, AllSpace;
    var p := ParseObject(lib, u, nesting);
    var gap := SkipSplit(u[1..]);
    var x := SkipSpace(u[1..]);
    if Head(x) == '}' {
      d := Object([], gap);
      assert x == "}" + p.rest;
      NoEntries(lib);
      ObjectReads(lib, u, [], gap, [], p.rest);
    } else {
      var entries := MembersDocument(lib, gap, x, nesting, []);
      d := Object(entries, []);
      NoSpace();
      assert [] + EntryMembers(lib, entries) == EntryMembers(lib, entries);
      ObjectReads(lib, u, entries, [], EntryMembers(lib, entries), p.rest);
    }
  }

  lemma ObjectReads(lib: Libc, u: Text, entries: seq<Entry>, gap: Text, ms: seq<Member>, rest: Text)
    requires EntriesReady(lib, entries) && EntriesTaken(lib, entries)
    requires EntryMembers(lib, entries) == ms && AllSpace(gap)
    requires u == "{" + if entries == [] then gap + ("}" + rest) else WriteEntries(entries, "}" + rest)
    ensures Is(lib, u, Object(entries, gap), Obj(ms), rest)
  {
    hide Write, WriteEntries, EntriesReady, EntryMembers, Tokens, Spaced, NumeralsTaken, Meaning, AllSpace;
    WriteObjectIs(entries, gap, rest);
    ObjectMeans(lib, entries, gap, ms);
    ObjectTaken(lib, entries, gap);
  }

  /** What a successful turn of parse_object_value's loop found. */
  lemma MembersSucceed(lib: Libc, x: Text, nesting: nat, acc: seq<Member>)
    requires ParseMembers(lib, x, nesting, acc).Success?
    ensures GetQuoted(x).Some?
    ensures var (key, t1) := GetQuoted(x).value;
            var t2 := SkipSpace(t1);
            && t2 != [] && t2 == ":" + t2[1..] && ParseValue(lib, t2[1..], nesting).Success?
            && var q, p := ParseValue(lib, t2[1..], nesting), ParseMembers(lib, x, nesting, acc);
               var t4, more := SkipSpace(q.rest), acc + [Member(key, q.value)];
               if Head(t4) == ',' then p == ParseMembers(lib, SkipSpace(t4[1..]), nesting, more)
               else t4 == "}" + p.rest && p.value == Obj(more)
  {
    hide ParseValue, SkipSpace, GetQuoted, Lookup;
  }

  lemma {:induction false} MembersDocument(lib: Libc, gap: Text, x: Text, nesting: nat, acc: seq<Member>)
    returns (entries: seq<Entry>)
    requires Stable(lib) && AllSpace(gap) && ParseMembers(lib, x, nesting, acc).Success?
    ensures entries != [] && EntriesReady(lib, entries) && EntriesTaken(lib, entries)
    ensures var p := ParseMembers(lib, x, nesting, acc);
            p.value == Obj(acc + EntryMembers(lib, entries)) && gap + x == WriteEntries(entries, "}" + p.rest)
    decreases |x|, 0
  {
    hide ParseValue, ParseMembers, SkipSpace, GetQuoted, Stable, Is, AllSpace;
    hide EntriesReady, EntriesTaken, EntryMembers, WriteEntries, WriteString, StringValue, Legal;
    MembersSucceed(lib, x, nesting, acc);
    var p := ParseMembers(lib, x, nesting, acc);
    var (key, t1) := GetQuoted(x).value;
    var pieces := LiteralPieces(x);
    var colon := SkipSplit(t1);
    var t2 := SkipSpace(t1);
    var q := ParseValue(lib, t2[1..], nesting);
    var before := SkipSplit(t2[1..]);
    var after := SkipSplit(q.rest);
    var t4 := SkipSpace(q.rest);
    NotUnreadBehind(lib, t2[1..], nesting);
    var d := AcceptedIsDocument(lib, t2[1..], nesting);
    var e, m := Entry(gap, pieces, colon, Item(before, d, after)), Member(key, q.value);
    var more: seq<Entry>;
    if Head(t4) == ',' {
      var gap' := SkipSplit(t4[1..]);
      more := MembersDocument(lib, gap', SkipSpace(t4[1..]), nesting, acc + [m]);
      assert t4 == "," + WriteEntries(more, "}" + p.rest);
    } else {
      more := [];
      NoEntries(lib);
    }
    EntryJoins(lib, e, x, m, t1, SkipSpace(t2[1..]), q.rest, t4, more, "}" + p.rest);
    entries := [e] + more;
    AppendAssoc(acc, m, EntryMembers(lib, more));
  }

  lemma NoEntries(lib: Libc)
    ensures EntriesReady(lib, []) && EntriesTaken(lib, []) && EntryMembers(lib, []) == []
  {
  }

  /** A value that goes on with its container has been read. */
  lemma NotUnreadBehind(lib: Libc, t: Text, nesting: nat)
    requires ParseValue(lib, t, nesting).Success?
    requires Head(SkipSpace(ParseValue(lib, t, nesting).rest)) in {',', ']', '}'}
    ensures ParseValue(lib, t, nesting).rest != SkipSpace(t)
  {
    hide ParseObject, ParseArray, ParseString, ParseNumber, ParseBoolean, ParseNull;
  }

  lemma EntryJoins(lib: Libc, e: Entry, x: Text, m: Member, t1: Text, u: Text, t3: Text, t4: Text,
                   more: seq<Entry>, tail: Text)
    requires Legal(e.name) && x == WriteString(e.name, t1) && m.name == StringValue(e.name)
    requires AllSpace(e.before) && AllSpace(e.colon) && AllSpace(e.item.before) && AllSpace(e.item.after)
    requires t1 == e.colon + (":" + (e.item.before + u)) && t3 == e.item.after + t4
    requires Is(lib, u, e.item.value, m.value, t3)
    requires EntriesReady(lib, more) && EntriesTaken(lib, more)
    requires t4 == if more == [] then tail else "," + WriteEntries(more, tail)
    ensures var entries := [e] + more;
            && EntriesReady(lib, entries) && EntriesTaken(lib, entries)
            && EntryMembers(lib, entries) == [m] + EntryMembers(lib, more)
            && e.before + x == WriteEntries(entries, tail)
  {
    hide EntriesReady, EntryMembers, Tokens, Spaced, NumeralsTaken, Meaning, Write, WriteString, StringValue, Legal;
    hide AllSpace, WriteEntries;
    EntriesCons(lib, e, more);
    var entries := [e] + more;
    assert entries[1..] == more && |entries| == 1 + |more|;
    WriteEntriesIs(entries, tail);
  }

  // ----- The language of the parser

  /** A value with something that can follow a number behind it has been read. */
  lemma ReadBeforeEnd(lib: Libc, t: Text, nesting: nat)
    requires ParseValue(lib, t, nesting).Success? && EndsNumber(Head(ParseValue(lib, t, nesting).rest))
    ensures ParseValue(lib, t, nesting).rest != SkipSpace(t)
  {
    hide ParseObject, ParseArray, ParseString, ParseNumber, ParseBoolean, ParseNull;
  }

  /** The parser reads a value up to `rest`, at the end of the text or where a value can end, exactly when the text is
      whitespace and a document that stands for the value, with numerals that are taken, distinct names and not too
      much nesting. */
  lemma LanguageExact(lib: Libc, t: Text, nesting: nat, v: Json, rest: Text)
    requires Stable(lib) && EndsNumber(Head(rest))
    ensures ParseValue(lib, t, nesting) == Success(v, rest)
       <==> Accepted(v, nesting) && exists d :: Is(lib, SkipSpace(t), d, v, rest)
  {
    hide Stable, ParseValue, Is, WellFormed, Fits;
    if ParseValue(lib, t, nesting) == Success(v, rest) {
      ReadBeforeEnd(lib, t, nesting);
      var d := AcceptedIsDocument(lib, t, nesting);
      ParsedValueIsGood(lib, t, nesting);
    }
    if d :| Accepted(v, nesting) && Is(lib, SkipSpace(t), d, v, rest) {
      DocumentAccepted(lib, t, nesting, d, v, rest);
    }
  }

  lemma DocumentAccepted(lib: Libc, t: Text, nesting: nat, d: Doc, v: Json, rest: Text)
    requires EndsNumber(Head(rest)) && Accepted(v, nesting) && Is(lib, SkipSpace(t), d, v, rest)
    ensures ParseValue(lib, t, nesting) == Success(v, rest)
  {
    hide ParseValue, Write, Tokens, Spaced, NumeralsTaken, Meaning, Accepted, SkipSpace;
    var w := SkipSplit(t);
    ParseAfterSpace(lib, w, SkipSpace(t), nesting);
    ParseWritten(lib, d, nesting, rest);
  }

  /** What is accepted without being a document: a sign that strtod finds no number behind. Nothing is read of it. */
  lemma LoneSign(lib: Libc, n: Number)
    requires lib.strtod("-") == Reading(0, true, Some(n))
    ensures ParseText(lib, "-") == Success(Num(n), "-")
  {
    hide ParseObject, ParseArray, ParseString, ParseBoolean, ParseNull;
    var t: Text := "-";
    assert t[0..] == t && SkipSpace(t) == t;
    assert ParseNumber(lib, t) == Success(Num(n), t);
  }

  // ----- Single numerals

  /** Of the texts that strtod reads whole the parser takes exactly the plain numerals in range, and nothing else as a
      number. */
  lemma NumeralExact(lib: Libc, text: Text, n: Number)
    requires ReadWhole(lib, text) && !IsSpace(Head(text))
    ensures ParseValue(lib, text, 0) == Success(Num(n), [])
       <==> PlainNumeral(text) && InRange(lib, text) && n == NumberOf(lib, text)
  {
    PlainIff(text, |text|);
    assert text + [] == text && text[|text|..] == [];
    if PlainNumeral(text) {
      hide PlainNumeral, ReadWhole, ParseValue;
      ParseWritten(lib, Numeral(text), 0, []);
    } else {
      NoOtherNumber(lib, text, n);
    }
  }

  lemma NoOtherNumber(lib: Libc, text: Text, n: Number)
    requires ReadWhole(lib, text) && !IsSpace(Head(text)) && !PlainNumeral(text)
    ensures ParseValue(lib, text, 0) != Success(Num(n), [])
  {
    PlainIff(text, |text|);
    SkipNothing(text);
    if StartsNumber(Head(text)) {
      hide IsDecimal, ReadWhole, PlainNumeral, ParseNumber, StartsNumber;
      ScalarDispatch(lib, text, 0);
      NotDecimal(lib, text);
    } else if text != [] {
      hide ParseElements, ParseMembers, SkipSpace, GetQuoted, ReadWhole, PlainNumeral, IsDecimal, ParseNumber;
      var u := SkipSpace(text[1..]);
      MembersAreObject(lib, u, 1, []);
      ElementsAreArray(lib, u, 1, []);
    }
  }

  lemma NotDecimal(lib: Libc, text: Text)
    requires ReadWhole(lib, text) && !IsDecimal(text, |text|)
    ensures ParseNumber(lib, text) == Failure
  {
    hide IsDecimal;
  }

  lemma {:induction false} MembersAreObject(lib: Libc, t: Text, nesting: nat, acc: seq<Member>)
    ensures var p := ParseMembers(lib, t, nesting, acc); p.Success? ==> p.value.Obj?
    decreases |t|
  {
    if ParseMembers(lib, t, nesting, acc).Success? {
      MembersSucceed(lib, t, nesting, acc);
      var (key, t1) := GetQuoted(t).value;
      var q := ParseValue(lib, SkipSpace(t1)[1..], nesting);
      var t4 := SkipSpace(q.rest);
      hide ParseMembers, GetQuoted, SkipSpace, ParseValue;
      if Head(t4) == ',' {
        MembersAreObject(lib, SkipSpace(t4[1..]), nesting, acc + [Member(key, q.value)]);
      }
    }
  }

  lemma {:induction false} ElementsAreArray(lib: Libc, t: Text, nesting: nat, acc: seq<Json>)
    ensures var p := ParseElements(lib, t, nesting, acc); p.Success? ==> p.value.Arr?
    decreases |t|
  {
    if ParseElements(lib, t, nesting, acc).Success? {
      ElementsSucceed(lib, t, nesting, acc);
      var q := ParseValue(lib, t, nesting);
      var t4 := SkipSpace(q.rest);
      hide ParseElements, SkipSpace, ParseValue;
      if Head(t4) == ',' {
        ElementsAreArray(lib, SkipSpace(t4[1..]), nesting, acc + [q.value]);
      }
    }
  }

  // ----- The nesting limit

  /** `n` arrays, one inside the other. */
  function Nested(n: nat): Json
    requires n > 0
  {
    if n == 1 then Arr([]) else Arr([Nested(n - 1)])
  }

  function Brackets(n: nat, c: byte): Text {
    if n == 0 then [] else [c] + Brackets(n - 1, c)
  }

  function NestedDoc(n: nat): Doc
    requires n > 0
  {
    if n == 1 then Array([], []) else Array([Item([], NestedDoc(n - 1), [])], [])
  }

  lemma {:induction false} BracketsAppend(n: nat, c: byte, t: Text)
    ensures Brackets(n + 1, c) + t == Brackets(n, c) + ([c] + t)
  {
    if n > 0 {
      BracketsAppend(n - 1, c, t);
      assert Brackets(n + 1, c) + t == [c] + (Brackets(n, c) + t);
      assert Brackets(n, c) + ([c] + t) == [c] + (Brackets(n - 1, c) + ([c] + t));
    } else {
      assert Brackets(1, c) == [c] + Brackets(0, c) == [c];
      assert Brackets(0, c) + ([c] + t) == [c] + t;
    }
  }

  lemma {:induction false} NestedText(n: nat, rest: Text)
    requires n > 0
    ensures Write(NestedDoc(n), rest) == Brackets(n, '[') + (Brackets(n, ']') + rest)
  {
    if n == 1 {
      assert Brackets(1, '[') == "[" + Brackets(0, '[') && Brackets(1, ']') == "]" + Brackets(0, ']');
      assert [] + ("]" + rest) == "]" + rest;
    } else {
      hide Brackets;
      NestedText(n - 1, "]" + rest);
      var items := [Item([], NestedDoc(n - 1), [])];
      assert WriteItems(items, "]" + rest) == [] + Write(NestedDoc(n - 1), [] + ("]" + rest));
      assert [] + ("]" + rest) == "]" + rest;
      BracketsAppend(n - 1, ']', rest);
      BracketsStep(n, '[', Brackets(n, ']') + rest);
    }
  }

  lemma BracketsStep(n: nat, c: byte, t: Text)
    requires n > 0
    ensures Brackets(n, c) + t == [c] + (Brackets(n - 1, c) + t)
  {
  }

  lemma {:induction false} NestedMeans(lib: Libc, n: nat)
    requires n > 0
    ensures var d := NestedDoc(n);
            Tokens(lib, d) && Spaced(d) && NumeralsTaken(lib, d) && Meaning(lib, d) == Nested(n)
  {
    if n > 1 {
      NestedMeans(lib, n - 1);
      hide NestedDoc, Nested, Tokens, Spaced, NumeralsTaken, Meaning;
      NoSpace();
      OneItem(lib, NestedDoc(n - 1), Nested(n - 1));
      NestedStep(n);
    } else {
      NestedOne(lib);
    }
  }

  lemma NestedStep(n: nat)
    requires n > 1
    ensures NestedDoc(n) == Array([Item([], NestedDoc(n - 1), [])], []) && Nested(n) == Arr([Nested(n - 1)])
  {
  }

  lemma NestedOne(lib: Libc)
    ensures var d := NestedDoc(1); Tokens(lib, d) && Spaced(d) && NumeralsTaken(lib, d) && Meaning(lib, d) == Nested(1)
  {
  }

  lemma OneItem(lib: Libc, d: Doc, v: Json)
    requires Tokens(lib, d) && Spaced(d) && NumeralsTaken(lib, d) && Meaning(lib, d) == v
    ensures var a := Array([Item([], d, [])], []);
            Tokens(lib, a) && Spaced(a) && NumeralsTaken(lib, a) && Meaning(lib, a) == Arr([v])
  {
    hide Tokens, Spaced, NumeralsTaken, Meaning;
    var items := [Item([], d, [])];
    NoSpace();
    NoItems(lib);
    assert items == [items[0]] + [] && [v] == [v] + [];
    ItemsCons(lib, items[0], []);
    ArrayMeans(lib, items, [], [v]);
    ArrayTaken(lib, items, []);
  }

  lemma {:induction false} NestedFits(n: nat, nesting: nat)
    requires n > 0
    ensures WellFormed(Nested(n)) && (Fits(Nested(n), nesting) <==> nesting + n <= 2049)
  {
    if n > 1 {
      NestedFits(n - 1, nesting + 1);
      assert Nested(n).items[0] == Nested(n - 1);
    }
  }

  /** Arrays nested up to 2049 deep are parsed, and no deeper ones. */
  lemma NestingLimit(lib: Libc, n: nat)
    requires n > 0
    ensures ParseText(lib, Brackets(n, '[') + Brackets(n, ']'))
         == if n <= 2049 then Success(Nested(n), []) else Failure
  {
    NestedWhole(n);
    NestedMeans(lib, n);
    NestedFits(n, 0);
    NoSpace();
    hide ParseText, Brackets, NestedDoc, Nested, Write, Tokens, Spaced, NumeralsTaken, Meaning, WellFormed, Fits;
    hide AllSpace;
    ParseDocument(lib, [], NestedDoc(n), []);
  }

  lemma NestedWhole(n: nat)
    requires n > 0
    ensures [] + Write(NestedDoc(n), []) == Brackets(n, '[') + Brackets(n, ']')
  {
    hide Brackets, NestedDoc, Write;
    NestedText(n, []);
    assert Brackets(n, ']') + [] == Brackets(n, ']');
  }
}
