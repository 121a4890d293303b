/** The parser on every text of the grammar, and on what the serialiser writes. */
module RoundTrip {
  import opened Bytes
  import opened StringCodec
  import opened StringLaws
  import opened Json
  import opened Parser
  import opened Serializer
  import opened Decimals
  import opened Grammar

  // ----- Tokens and the whitespace before them

  lemma SkipNothing(t: Text)
    requires !IsSpace(Head(t))
    ensures SkipSpace(t) == t
  {
  }

  lemma SkipTo(w: Text, t: Text)
    requires AllSpace(w) && !IsSpace(Head(t))
    ensures SkipSpace(w + t) == t
  {
    hide SkipSpace;
    SkipSpaceOver(w, t);
    SkipNothing(t);
  }

  /** The first byte of a value selects its parsing routine. */
  ghost predicate StartsValue(c: byte) {
    c == '{' || c == '[' || c == '\"' || c == 't' || c == 'f' || c == 'n' || StartsNumber(c)
  }

  lemma WrittenStarts(lib: Libc, d: Doc, rest: Text)
    requires Tokens(lib, d)
    ensures Write(d, rest) != [] && StartsValue(Write(d, rest)[0])
  {
    hide WritePieces, ReadWhole, Legal;
  }

  lemma ParseAfterSpace(lib: Libc, w: Text, t: Text, nesting: nat)
    requires AllSpace(w)
    ensures ParseValue(lib, w + t, nesting) == ParseValue(lib, t, nesting)
  {
    hide SkipSpace, ParseObject, ParseArray, ParseNumber;
    SkipSpaceOver(w, t);
  }

  // ----- Every text of the grammar

  ghost predicate Accepted(v: Json, nesting: nat) {
    WellFormed(v) && Fits(v, nesting)
  }

  /** What the parser accepts: numerals that parse_number_value takes, distinct names in every object, and no value
      under too many containers. */
  ghost predicate Accepts(lib: Libc, d: Doc, nesting: nat)
    requires Tokens(lib, d)
  {
    NumeralsTaken(lib, d) && Accepted(Meaning(lib, d), nesting)
  }

  ghost function Expected(lib: Libc, d: Doc, nesting: nat, rest: Text): Parse<Json>
    requires Tokens(lib, d)
  {
    if Accepts(lib, d, nesting) then Success(Meaning(lib, d), rest) else Failure
  }

  /** A document is accepted exactly when its numerals are taken and the value it stands for has distinct names in
      every object and is not nested too deeply; then that value is returned, with reading left where the text ends. */
  lemma {:induction false} ParseWritten(lib: Libc, d: Doc, nesting: nat, rest: Text)
    requires Tokens(lib, d) && Spaced(d) && (d.Numeral? ==> EndsNumber(Head(rest)))
    ensures ParseValue(lib, Write(d, rest), nesting) == Expected(lib, d, nesting, rest)
    decreases d, 1
  {
    hide ParseValue, Write, AllSpace;
    if nesting > MAX_NESTING {
      TooDeep(lib, d, Write(d, rest), nesting);
    } else {
      match d
      case Array(items, gap) => ParseArrayWritten(lib, items, gap, nesting, rest);
      case Object(entries, gap) => ParseObjectWritten(lib, entries, gap, nesting, rest);
      case _ => ParseScalarWritten(lib, d, nesting, rest);
    }
  }

  lemma TooDeep(lib: Libc, d: Doc, t: Text, nesting: nat)
    requires nesting > MAX_NESTING && Tokens(lib, d)
    ensures ParseValue(lib, t, nesting) == Failure && !Accepts(lib, d, nesting)
  {
  }

  lemma ParseScalarWritten(lib: Libc, d: Doc, nesting: nat, rest: Text)
    requires Tokens(lib, d) && !d.Array? && !d.Object? && nesting <= MAX_NESTING
    requires d.Numeral? ==> EndsNumber(Head(rest))
    ensures ParseValue(lib, Write(d, rest), nesting) == Expected(lib, d, nesting, rest)
  {
    hide GetQuoted, WriteString, StringValue, Legal, ParseValue, ParseNumber, ParseBoolean, ParseNull;
    hide ReadWhole, Taken, NumberOf, FixedText, MinusOrDigit;
    ScalarDispatch(lib, Write(d, rest), nesting);
    match d
    case Literal(pieces) =>
      StringRead(pieces, rest);
      QuoteFirst(pieces, rest);
    case Numeral(text) => NumeralRead(lib, text, rest);
    case Fixed(v) => FixedRead(v, rest);
  }

  /** The first byte selects the parsing routine. */
  lemma ScalarDispatch(lib: Libc, t: Text, nesting: nat)
    requires nesting <= MAX_NESTING
    ensures Head(t) == '\"' ==> ParseValue(lib, t, nesting) == ParseString(t)
    ensures Head(t) in {'t', 'f'} ==> ParseValue(lib, t, nesting) == ParseBoolean(t)
    ensures Head(t) == 'n' ==> ParseValue(lib, t, nesting) == ParseNull(t)
    ensures StartsNumber(Head(t)) ==> ParseValue(lib, t, nesting) == ParseNumber(lib, t)
  {
    hide ParseString, ParseBoolean, ParseNull, ParseNumber, ParseArray, ParseObject;
  }

  lemma FixedRead(v: Json, rest: Text)
    requires v.Null? || v.Bool?
    ensures var t := FixedText(v) + rest;
            if v.Null? then Head(t) == 'n' && ParseNull(t) == Success(v, rest)
            else Head(t) in {'t', 'f'} && ParseBoolean(t) == Success(v, rest)
  {
    var t := FixedText(v) + rest;
    assert t[|FixedText(v)|..] == rest;
  }

  lemma QuoteFirst(pieces: seq<Piece>, rest: Text)
    ensures Head(WriteString(pieces, rest)) == '\"'
  {
    hide WritePieces;
  }

  lemma NumeralRead(lib: Libc, text: Text, rest: Text)
    requires ReadWhole(lib, text) && MinusOrDigit(Head(text)) && EndsNumber(Head(rest))
    ensures StartsNumber(Head(text + rest))
    ensures ParseNumber(lib, text + rest)
         == if Taken(lib, text) then Success(Num(NumberOf(lib, text)), rest) else Failure
  {
    var t := text + rest;
    PlainIff(text, |text|);
    assert forall i :: 0 <= i < |text| ==> t[i] == text[i];
    assert IsDecimal(t, |text|) == IsDecimal(text, |text|) && t[|text|..] == rest;
  }

  /** Entering a container from parse_value. */
  lemma OpenContainer(lib: Libc, tail: Text, nesting: nat)
    requires nesting <= MAX_NESTING
    ensures var u := SkipSpace(tail);
            && ParseValue(lib, "[" + tail, nesting)
               == (if Head(u) == ']' then Success(Arr([]), u[1..]) else ParseElements(lib, u, nesting + 1, []))
            && ParseValue(lib, "{" + tail, nesting)
               == (if Head(u) == '}' then Success(Obj([]), u[1..]) else ParseMembers(lib, u, nesting + 1, []))
  {
    hide SkipSpace, ParseElements, ParseMembers;
    SkipNothing("[" + tail);
    SkipNothing("{" + tail);
    assert ("[" + tail)[1..] == tail && ("{" + tail)[1..] == tail;
  }

  /** What follows an entry: whitespace and then the end of its container, or a comma and more. */
  lemma AfterSpace(after: Text, tail: Text)
    requires AllSpace(after) && Head(tail) in {',', ']', '}'}
    ensures EndsNumber(Head(after + tail)) && SkipSpace(after + tail) == tail
  {
    hide SkipSpace;
    SkipTo(after, tail);
    assert after != [] ==> Head(after + tail) == after[0];
    assert after == [] ==> after + tail == tail;
  }

  // ----- Arrays

  ghost predicate ItemReady(lib: Libc, item: Item) {
    Tokens(lib, item.value) && Spaced(item.value) && AllSpace(item.before) && AllSpace(item.after)
  }

  ghost predicate ItemsReady(lib: Libc, items: seq<Item>) {
    forall i :: 0 <= i < |items| ==> ItemReady(lib, items[i])
  }

  ghost function ItemValues(lib: Libc, items: seq<Item>): seq<Json>
    requires ItemsReady(lib, items)
  {
    if items == [] then [] else [Meaning(lib, items[0].value)] + ItemValues(lib, items[1..])
  }

  lemma {:induction false} ItemValuesAt(lib: Libc, items: seq<Item>)
    requires ItemsReady(lib, items)
    ensures ItemValues(lib, items) == seq(|items|, i requires 0 <= i < |items| => Meaning(lib, items[i].value))
  {
    hide Meaning, Tokens, Spaced;
    if items != [] {
      ItemValuesAt(lib, items[1..]);
    }
  }

  ghost predicate ItemsAccepted(lib: Libc, items: seq<Item>, nesting: nat)
    requires ItemsReady(lib, items)
  {
    forall i :: 0 <= i < |items| ==> Accepts(lib, items[i].value, nesting)
  }

  lemma ArrayAccepted(lib: Libc, items: seq<Item>, gap: Text, nesting: nat)
    requires Tokens(lib, Array(items, gap)) && ItemsReady(lib, items) && nesting <= MAX_NESTING
    ensures Accepts(lib, Array(items, gap), nesting) == ItemsAccepted(lib, items, nesting + 1)
  {
    var vs := Meaning(lib, Array(items, gap)).items;
    assert forall i :: 0 <= i < |items| ==> vs[i] == Meaning(lib, items[i].value);
    ArrayGood(vs, nesting);
    ArrayTaken(lib, items, gap);
    hide Meaning, Tokens, WellFormed, Fits, NumeralsTaken, ItemReady, Accepted;
    assert ItemsAccepted(lib, items, nesting + 1) <==>
           forall i :: 0 <= i < |items| ==> NumeralsTaken(lib, items[i].value) && Accepted(vs[i], nesting + 1);
  }

  lemma ArrayGood(vs: seq<Json>, nesting: nat)
    requires nesting <= MAX_NESTING
    ensures Accepted(Arr(vs), nesting) <==> forall i :: 0 <= i < |vs| ==> Accepted(vs[i], nesting + 1)
  {
  }

  lemma ArrayTaken(lib: Libc, items: seq<Item>, gap: Text)
    ensures NumeralsTaken(lib, Array(items, gap)) <==>
            forall i :: 0 <= i < |items| ==> NumeralsTaken(lib, items[i].value)
  {
  }

  lemma ItemsParts(lib: Libc, items: seq<Item>, gap: Text)
    requires Tokens(lib, Array(items, gap)) && Spaced(Array(items, gap))
    ensures ItemsReady(lib, items) && AllSpace(gap)
    ensures Meaning(lib, Array(items, gap)) == Arr(ItemValues(lib, items))
  {
    ItemValuesAt(lib, items);
  }

  lemma ArrayExpected(lib: Libc, items: seq<Item>, gap: Text, nesting: nat, rest: Text)
    requires Tokens(lib, Array(items, gap)) && ItemsReady(lib, items) && nesting <= MAX_NESTING
    requires Meaning(lib, Array(items, gap)) == Arr(ItemValues(lib, items))
    ensures Expected(lib, Array(items, gap), nesting, rest) == ExpectedItems(lib, items, nesting + 1, [], rest)
  {
    hide Accepts, ItemsAccepted, Tokens, ItemsReady, ItemValues, Meaning;
    ArrayAccepted(lib, items, gap, nesting);
    assert [] + ItemValues(lib, items) == ItemValues(lib, items);
  }

  lemma WriteArrayIs(items: seq<Item>, gap: Text, rest: Text)
    ensures Write(Array(items, gap), rest)
         == "[" + if items == [] then gap + ("]" + rest) else WriteItems(items, "]" + rest)
  {
    hide WriteItems;
  }

  lemma WriteObjectIs(entries: seq<Entry>, gap: Text, rest: Text)
    ensures Write(Object(entries, gap), rest)
         == "{" + if entries == [] then gap + ("}" + rest) else WriteEntries(entries, "}" + rest)
  {
    hide WriteEntries;
  }

  lemma {:induction false} ParseArrayWritten(lib: Libc, items: seq<Item>, gap: Text, nesting: nat, rest: Text)
    requires Tokens(lib, Array(items, gap)) && Spaced(Array(items, gap)) && nesting <= MAX_NESTING
    ensures var d := Array(items, gap);
            ParseValue(lib, Write(d, rest), nesting) == Expected(lib, d, nesting, rest)
    decreases items, 1
  {
    hide ParseValue, ParseElements, ParseMembers, SkipSpace, AllSpace, WriteItems, Tokens, Spaced;
    hide Meaning, ItemsReady, ItemValues, Expected, ExpectedItems, Write, AfterItem;
    WriteArrayIs(items, gap, rest);
    ItemsParts(lib, items, gap);
    ArrayExpected(lib, items, gap, nesting, rest);
    var end := "]" + rest;
    assert end[1..] == rest;
    if items == [] {
      OpenContainer(lib, gap + end, nesting);
      SkipTo(gap, end);
      ExpectedItem(lib, items, nesting + 1, [], rest);
    } else {
      OpenContainer(lib, WriteItems(items, end), nesting);
      SkipToItem(lib, items, end);
      ParseItemsWritten(lib, items, nesting + 1, [], rest);
    }
  }

  lemma SkipToItem(lib: Libc, items: seq<Item>, tail: Text)
    requires items != [] && ItemsReady(lib, items)
    ensures var t := Write(items[0].value, AfterItem(items, tail));
            SkipSpace(WriteItems(items, tail)) == t && StartsValue(Head(t))
  {
    hide Write, AfterItem, SkipSpace, Tokens, Spaced, AllSpace;
    var t := Write(items[0].value, AfterItem(items, tail));
    WrittenStarts(lib, items[0].value, AfterItem(items, tail));
    SkipTo(items[0].before, t);
  }

  /** One turn of parse_array_value's loop. */
  lemma ElementsTurn(lib: Libc, t: Text, nesting: nat, acc: seq<Json>)
    requires Head(t) != '\0'
    ensures ParseValue(lib, t, nesting).Failure? ==> ParseElements(lib, t, nesting, acc) == Failure
    ensures ParseValue(lib, t, nesting).Success? ==>
              var p := ParseValue(lib, t, nesting);
              var t4, more := SkipSpace(p.rest), acc + [p.value];
              && (Head(t4) == ',' ==>
                    ParseElements(lib, t, nesting, acc) == ParseElements(lib, SkipSpace(t4[1..]), nesting, more))
              && (Head(t4) == ']' ==> ParseElements(lib, t, nesting, acc) == Success(Arr(more), t4[1..]))
  {
    hide SkipSpace, ParseValue;
  }

  ghost function ExpectedItems(lib: Libc, items: seq<Item>, nesting: nat, acc: seq<Json>, rest: Text): Parse<Json>
    requires ItemsReady(lib, items)
  {
    if ItemsAccepted(lib, items, nesting) then Success(Arr(acc + ItemValues(lib, items)), rest) else Failure
  }

  lemma ExpectedItem(lib: Libc, items: seq<Item>, nesting: nat, acc: seq<Json>, rest: Text)
    requires ItemsReady(lib, items)
    ensures ExpectedItems(lib, items, nesting, acc, rest)
         == if items == [] then Success(Arr(acc), rest)
            else if !Accepts(lib, items[0].value, nesting) then Failure
            else ExpectedItems(lib, items[1..], nesting, acc + [Meaning(lib, items[0].value)], rest)
  {
    hide Accepts, Meaning, Tokens, Spaced, AllSpace;
    if items == [] {
      assert acc + [] == acc;
    } else {
      var v, vs := Meaning(lib, items[0].value), ItemValues(lib, items[1..]);
      assert acc + ([v] + vs) == acc + [v] + vs;
      if ItemsAccepted(lib, items, nesting) {
        assert forall i :: 0 <= i < |items| - 1 ==> items[1..][i] == items[i + 1];
      } else if Accepts(lib, items[0].value, nesting) {
        var i :| 0 <= i < |items| && !Accepts(lib, items[i].value, nesting);
        assert items[1..][i - 1] == items[i];
      }
    }
  }

  lemma {:induction false} ParseItemsWritten(lib: Libc, items: seq<Item>, nesting: nat, acc: seq<Json>, rest: Text)
    requires items != [] && ItemsReady(lib, items)
    ensures ParseElements(lib, Write(items[0].value, AfterItem(items, "]" + rest)), nesting, acc)
         == ExpectedItems(lib, items, nesting, acc, rest)
    decreases items, 0
  {
    hide ParseValue, ParseElements, SkipSpace, Write, WriteItems, Meaning, Tokens, Spaced, AllSpace, Accepts;
    hide ExpectedItems;
    var end := "]" + rest;
    assert end[1..] == rest;
    var after := AfterItem(items, end);
    var t := Write(items[0].value, after);
    var v := Meaning(lib, items[0].value);
    var tail := if |items| == 1 then end else "," + WriteItems(items[1..], end);
    AfterSpace(items[0].after, tail);
    SkipToItem(lib, items, end);
    ParseWritten(lib, items[0].value, nesting, after);
    ElementsTurn(lib, t, nesting, acc);
    ExpectedItem(lib, items, nesting, acc, rest);
    if |items| > 1 {
      assert tail[1..] == WriteItems(items[1..], end);
      SkipToItem(lib, items[1..], end);
      ParseItemsWritten(lib, items[1..], nesting, acc + [v], rest);
    } else {
      ExpectedItem(lib, items[1..], nesting, acc + [v], rest);
    }
  }

  // ----- Objects

  ghost predicate EntryReady(lib: Libc, e: Entry) {
    Legal(e.name) && AllSpace(e.before) && AllSpace(e.colon) && ItemReady(lib, e.item)
  }

  ghost predicate EntriesReady(lib: Libc, entries: seq<Entry>) {
    forall i :: 0 <= i < |entries| ==> EntryReady(lib, entries[i])
  }

  ghost function MemberOf(lib: Libc, e: Entry): Member
    requires Legal(e.name) && Tokens(lib, e.item.value)
  {
    Member(StringValue(e.name), Meaning(lib, e.item.value))
  }

  ghost function EntryMembers(lib: Libc, entries: seq<Entry>): seq<Member>
    requires EntriesReady(lib, entries)
  {
    if entries == [] then [] else [MemberOf(lib, entries[0])] + EntryMembers(lib, entries[1..])
  }

  lemma {:induction false} EntryMembersAt(lib: Libc, entries: seq<Entry>)
    requires EntriesReady(lib, entries)
    ensures EntryMembers(lib, entries)
         == seq(|entries|, i requires 0 <= i < |entries| =>
              Member(StringValue(entries[i].name), Meaning(lib, entries[i].item.value)))
  {
    hide Meaning, StringValue, Tokens, Spaced, AllSpace;
    if entries != [] {
      EntryMembersAt(lib, entries[1..]);
    }
  }

  lemma EntriesParts(lib: Libc, entries: seq<Entry>, gap: Text)
    requires Tokens(lib, Object(entries, gap)) && Spaced(Object(entries, gap))
    ensures EntriesReady(lib, entries) && AllSpace(gap)
    ensures Meaning(lib, Object(entries, gap)) == Obj(EntryMembers(lib, entries))
  {
    EntryMembersAt(lib, entries);
  }

  ghost predicate EntriesAccepted(lib: Libc, entries: seq<Entry>, nesting: nat)
    requires EntriesReady(lib, entries)
  {
    forall i :: 0 <= i < |entries| ==> Accepts(lib, entries[i].item.value, nesting)
  }

  lemma ObjectAccepted(lib: Libc, entries: seq<Entry>, gap: Text, nesting: nat)
    requires Tokens(lib, Object(entries, gap)) && EntriesReady(lib, entries) && nesting <= MAX_NESTING
    ensures Accepts(lib, Object(entries, gap), nesting)
         == (DistinctNames(Meaning(lib, Object(entries, gap)).members) && EntriesAccepted(lib, entries, nesting + 1))
  {
    var ms := Meaning(lib, Object(entries, gap)).members;
    assert forall i :: 0 <= i < |entries| ==> ms[i].value == Meaning(lib, entries[i].item.value);
    ObjectGood(ms, nesting);
    ObjectTaken(lib, entries, gap);
    hide Meaning, Tokens, WellFormed, Fits, NumeralsTaken, EntryReady, Accepted, DistinctNames;
    assert EntriesAccepted(lib, entries, nesting + 1) <==>
           forall i :: 0 <= i < |entries| ==>
             NumeralsTaken(lib, entries[i].item.value) && Accepted(ms[i].value, nesting + 1);
  }

  lemma ObjectGood(ms: seq<Member>, nesting: nat)
    requires nesting <= MAX_NESTING
    ensures Accepted(Obj(ms), nesting) <==>
            DistinctNames(ms) && forall i :: 0 <= i < |ms| ==> Accepted(ms[i].value, nesting + 1)
  {
  }

  lemma ObjectTaken(lib: Libc, entries: seq<Entry>, gap: Text)
    ensures NumeralsTaken(lib, Object(entries, gap)) <==>
            forall i :: 0 <= i < |entries| ==> NumeralsTaken(lib, entries[i].item.value)
  {
  }

  lemma ObjectExpected(lib: Libc, entries: seq<Entry>, gap: Text, nesting: nat, rest: Text)
    requires Tokens(lib, Object(entries, gap)) && EntriesReady(lib, entries) && nesting <= MAX_NESTING
    requires Meaning(lib, Object(entries, gap)) == Obj(EntryMembers(lib, entries))
    ensures Expected(lib, Object(entries, gap), nesting, rest) == ExpectedMembers(lib, entries, nesting + 1, [], rest)
  {
    hide Accepts, EntriesAccepted, Tokens, EntriesReady, EntryMembers, Meaning, DistinctNames;
    ObjectAccepted(lib, entries, gap, nesting);
    assert [] + EntryMembers(lib, entries) == EntryMembers(lib, entries);
  }

  lemma {:induction false} ParseObjectWritten(lib: Libc, entries: seq<Entry>, gap: Text, nesting: nat, rest: Text)
    requires Tokens(lib, Object(entries, gap)) && Spaced(Object(entries, gap)) && nesting <= MAX_NESTING
    ensures var d := Object(entries, gap);
            ParseValue(lib, Write(d, rest), nesting) == Expected(lib, d, nesting, rest)
    decreases entries, 1
  {
    hide ParseValue, ParseElements, ParseMembers, SkipSpace, AllSpace, WriteEntries, Tokens, Spaced;
    hide Meaning, EntriesReady, EntryMembers, Expected, ExpectedMembers, DistinctNames, Write, WriteEntry;
    WriteObjectIs(entries, gap, rest);
    EntriesParts(lib, entries, gap);
    ObjectExpected(lib, entries, gap, nesting, rest);
    NoNames();
    var end := "}" + rest;
    assert end[1..] == rest;
    if entries == [] {
      OpenContainer(lib, gap + end, nesting);
      SkipTo(gap, end);
      ExpectedMember(lib, entries, nesting + 1, [], rest);
    } else {
      OpenContainer(lib, WriteEntries(entries, end), nesting);
      FirstReady(lib, entries);
      SkipToEntry(entries, end);
      ParseEntriesWritten(lib, entries, nesting + 1, [], rest);
    }
  }

  lemma FirstReady(lib: Libc, entries: seq<Entry>)
    requires EntriesReady(lib, entries) && entries != []
    ensures AllSpace(entries[0].before)
  {
  }

  lemma NoNames()
    ensures DistinctNames([])
  {
  }

  lemma SkipToEntry(entries: seq<Entry>, tail: Text)
    requires entries != [] && AllSpace(entries[0].before)
    ensures var t := WriteEntry(entries, tail);
            SkipSpace(WriteEntries(entries, tail)) == t && Head(t) == '\"'
  {
    hide SkipSpace, AllSpace, WritePieces, Write;
    SkipTo(entries[0].before, WriteEntry(entries, tail));
  }

  /** One turn of parse_object_value's loop, from a name and its colon on. */
  lemma MembersTurn(lib: Libc, t: Text, nesting: nat, acc: seq<Member>, key: CStr, t1: Text)
    requires Head(t) != '\0' && GetQuoted(t) == Some((key, t1)) && Head(SkipSpace(t1)) == ':'
    ensures ParseValue(lib, SkipSpace(t1)[1..], nesting).Failure? || Lookup(acc, key).Some? ==>
              ParseMembers(lib, t, nesting, acc) == Failure
    ensures ParseValue(lib, SkipSpace(t1)[1..], nesting).Success? && Lookup(acc, key).None? ==>
              var p := ParseValue(lib, SkipSpace(t1)[1..], nesting);
              var t4, more := SkipSpace(p.rest), acc + [Member(key, p.value)];
              && (Head(t4) == ',' ==>
                    ParseMembers(lib, t, nesting, acc) == ParseMembers(lib, SkipSpace(t4[1..]), nesting, more))
              && (Head(t4) == '}' ==> ParseMembers(lib, t, nesting, acc) == Success(Obj(more), t4[1..]))
  {
    hide SkipSpace, ParseValue, GetQuoted;
  }

  ghost function ExpectedMembers(lib: Libc, entries: seq<Entry>, nesting: nat, acc: seq<Member>,
                                 rest: Text): Parse<Json>
    requires EntriesReady(lib, entries)
  {
    var all := acc + EntryMembers(lib, entries);
    if DistinctNames(all) && EntriesAccepted(lib, entries, nesting) then Success(Obj(all), rest) else Failure
  }

  lemma ExpectedMember(lib: Libc, entries: seq<Entry>, nesting: nat, acc: seq<Member>, rest: Text)
    requires EntriesReady(lib, entries) && DistinctNames(acc)
    ensures entries == [] ==> ExpectedMembers(lib, entries, nesting, acc, rest) == Success(Obj(acc), rest)
    ensures entries != [] ==>
              var m := MemberOf(lib, entries[0]);
              && ExpectedMembers(lib, entries, nesting, acc, rest)
                 == (if !Accepts(lib, entries[0].item.value, nesting) || Lookup(acc, m.name).Some? then Failure
                     else ExpectedMembers(lib, entries[1..], nesting, acc + [m], rest))
              && (Lookup(acc, m.name).None? ==> DistinctNames(acc + [m]))
  {
    hide Accepts, Lookup, StringValue, Meaning, Tokens, Spaced, Legal, AllSpace;
    if entries == [] {
      assert acc + [] == acc;
    } else {
      var m, ms := MemberOf(lib, entries[0]), EntryMembers(lib, entries[1..]);
      NameTwice(acc, m, ms);
      AcceptedHead(lib, entries, nesting);
      if Lookup(acc, m.name).None? {
        DistinctAppend(acc, m);
      }
    }
  }

  lemma AcceptedHead(lib: Libc, entries: seq<Entry>, nesting: nat)
    requires EntriesReady(lib, entries) && entries != []
    ensures EntriesAccepted(lib, entries, nesting) <==>
            Accepts(lib, entries[0].item.value, nesting) && EntriesAccepted(lib, entries[1..], nesting)
  {
    hide Accepts, EntryReady;
    assert forall i :: 0 < i < |entries| ==> entries[i] == entries[1..][i - 1];
  }

  lemma NameTwice(acc: seq<Member>, m: Member, ms: seq<Member>)
    ensures acc + ([m] + ms) == acc + [m] + ms
    ensures Lookup(acc, m.name).Some? ==> !DistinctNames(acc + ([m] + ms))
  {
    var all := acc + ([m] + ms);
    LookupNone(acc, m.name);
    if Lookup(acc, m.name).Some? {
      var i :| 0 <= i < |acc| && acc[i].name == m.name;
      assert all[i].name == all[|acc|].name;
    }
  }

  /** Reading a name and its colon arrives at the whitespace before the value. */
  lemma NameRead(lib: Libc, entries: seq<Entry>, tail: Text, nesting: nat) returns (t1: Text)
    requires entries != [] && EntriesReady(lib, entries)
    ensures var e := entries[0];
            && GetQuoted(WriteEntry(entries, tail)) == Some((StringValue(e.name), t1))
            && Head(SkipSpace(t1)) == ':'
            && ParseValue(lib, SkipSpace(t1)[1..], nesting)
               == ParseValue(lib, Write(e.item.value, AfterEntry(entries, tail)), nesting)
  {
    hide GetQuoted, WriteString, StringValue, SkipSpace, Write, AfterEntry, ParseValue, AllSpace, Tokens, Spaced;
    var e := entries[0];
    var value := e.item.before + Write(e.item.value, AfterEntry(entries, tail));
    t1 := e.colon + (":" + value);
    StringRead(e.name, t1);
    SkipTo(e.colon, ":" + value);
    assert (":" + value)[1..] == value;
    ParseAfterSpace(lib, e.item.before, Write(e.item.value, AfterEntry(entries, tail)), nesting);
  }

  lemma {:induction false} ParseEntriesWritten(lib: Libc, entries: seq<Entry>, nesting: nat, acc: seq<Member>,
                                                 rest: Text)
    requires entries != [] && EntriesReady(lib, entries) && DistinctNames(acc)
    ensures ParseMembers(lib, WriteEntry(entries, "}" + rest), nesting, acc)
         == ExpectedMembers(lib, entries, nesting, acc, rest)
    decreases entries, 0
  {
    hide ParseValue, ParseMembers, SkipSpace, Write, WriteEntries, Meaning, Tokens, Spaced, AllSpace, Accepts;
    hide ExpectedMembers, DistinctNames, Lookup, StringValue, WriteEntry, GetQuoted;
    var end := "}" + rest;
    assert end[1..] == rest;
    var after := AfterEntry(entries, end);
    var m := MemberOf(lib, entries[0]);
    var tail := if |entries| == 1 then end else "," + WriteEntries(entries[1..], end);
    AfterSpace(entries[0].item.after, tail);
    SkipToEntry(entries, end);
    var t1 := NameRead(lib, entries, end, nesting);
    ParseWritten(lib, entries[0].item.value, nesting, after);
    MembersTurn(lib, WriteEntry(entries, end), nesting, acc, m.name, t1);
    ExpectedMember(lib, entries, nesting, acc, rest);
    if |entries| > 1 {
      assert tail[1..] == WriteEntries(entries[1..], end);
      SkipToEntry(entries[1..], end);
      if Lookup(acc, m.name).None? {
        ParseEntriesWritten(lib, entries[1..], nesting, acc + [m], rest);
      }
    } else if Lookup(acc, m.name).None? {
      ExpectedMember(lib, entries[1..], nesting, acc + [m], rest);
    }
  }

  // ----- Whole texts

  /** json_parse_string on a text of the grammar: whitespace, a value, and whatever follows it. */
  lemma ParseDocument(lib: Libc, before: Text, d: Doc, rest: Text)
    requires AllSpace(before) && Tokens(lib, d) && Spaced(d) && (d.Numeral? ==> EndsNumber(Head(rest)))
    ensures ParseText(lib, before + Write(d, rest)) == Expected(lib, d, 0, rest)
    ensures var mark: Text := [0xEF as char, 0xBB as char, 0xBF as char];
            ParseText(lib, mark + (before + Write(d, rest))) == Expected(lib, d, 0, rest)
  {
    hide ParseValue, Write, Expected;
    var t := before + Write(d, rest);
    WrittenStarts(lib, d, rest);
    assert t[0] == if before == [] then Write(d, rest)[0] else before[0];
    ParseAfterSpace(lib, before, Write(d, rest), 0);
    ParseWritten(lib, d, 0, rest);
    var mark: Text := [0xEF as char, 0xBB as char, 0xBF as char];
    assert (mark + t)[3..] == t;
  }

  /** json_parse_string on every JSON text of RFC 8259, with anything that can follow a value behind it: accepted
      exactly when no number is a lone zero directly followed by an exponent, none is out of range, names are distinct
      in every object, and nothing is nested too deeply. */
  lemma ParseRfc(lib: Libc, before: Text, d: Doc, rest: Text)
    requires ReadsNumerals(lib) && Rfc8259(d) && Spaced(d) && AllSpace(before)
    requires d.Numeral? ==> EndsNumber(Head(rest))
    ensures Tokens(lib, d)
    ensures ParseText(lib, before + Write(d, rest))
         == if AllNumerals(d, (t: Text) => Ordinary(lib, t)) && Accepted(Meaning(lib, d), 0)
            then Success(Meaning(lib, d), rest) else Failure
  {
    hide ParseText, Write, Tokens, Meaning, Accepted, Rfc8259, Ordinary, AllNumerals;
    RfcTokens(lib, d);
    RfcTaken(lib, d);
    ParseDocument(lib, before, d, rest);
  }

  lemma NumeralRefused(lib: Libc, text: Text)
    requires ReadWhole(lib, text) && MinusOrDigit(Head(text)) && !PlainNumeral(text)
    ensures ParseText(lib, text) == Failure
  {
    hide ParseText, PlainNumeral, ReadWhole, AllSpace;
    NoSpace();
    ParseDocument(lib, [], Numeral(text), []);
    assert [] + (text + []) == text;
  }

  /** A number of RFC 8259 that is refused. */
  lemma ZeroExponentRefused(lib: Libc)
    requires ReadWhole(lib, "0e1")
    ensures IsNumeral("0e1") && ParseText(lib, "0e1") == Failure
  {
    LoneZero();
    hide ParseText, IsNumeral, IsZeroWithExponent, PlainNumeral, ReadWhole;
    NumeralIsPlain("0e1");
    NumeralRefused(lib, "0e1");
  }

  // ----- What the serialiser writes is such a text

  /** A new line, indented by four blanks a level. */
  function Line(level: nat): Text {
    "\n" + seq(4 * level, _ => ' ')
  }

  /** The whitespace of serialised text: pretty text has each entry on a line of its own, the closing bracket on
      another one, and a blank behind each colon; compact text has none. */
  function Lead(level: nat, pretty: bool): Text {
    if pretty then Line(level + 1) else []
  }

  function Trail(last: bool, level: nat, pretty: bool): Text {
    if last && pretty then Line(level) else []
  }

  function BehindColon(pretty: bool): Text {
    if pretty then " " else []
  }

  /** The serialised value as a text of the grammar. */
  function DocOf(lib: Libc, v: Json, level: nat, pretty: bool): Doc
    decreases v, 0
  {
    match v
    case Num(n) => Numeral(lib.sprintf(n))
    case Str(s) => Literal(PiecesOf(s))
    case Arr(items) => Array(ItemDocs(lib, items, 0, level, pretty), [])
    case Obj(ms) => Object(EntryDocs(lib, ms, 0, level, pretty), [])
    case _ => Fixed(v)
  }

  function ItemDocs(lib: Libc, items: seq<Json>, i: nat, level: nat, pretty: bool): (r: seq<Item>)
    requires i <= |items|
    ensures |r| == |items| - i
    decreases items, |items| - i
  {
    if i == |items| then []
    else
      [Item(Lead(level, pretty), DocOf(lib, items[i], level + 1, pretty), Trail(i + 1 == |items|, level, pretty))]
      + ItemDocs(lib, items, i + 1, level, pretty)
  }

  function EntryDocs(lib: Libc, ms: seq<Member>, i: nat, level: nat, pretty: bool): (r: seq<Entry>)
    requires i <= |ms|
    ensures |r| == |ms| - i
    decreases ms, |ms| - i
  {
    if i == |ms| then []
    else
      [Entry(Lead(level, pretty), PiecesOf(ms[i].name), [],
             Item(BehindColon(pretty), DocOf(lib, ValueNamed(ms, i), level + 1, pretty),
                  Trail(i + 1 == |ms|, level, pretty)))]
      + EntryDocs(lib, ms, i + 1, level, pretty)
  }

  // Its text

  /** The entries of a container from one on, and its end. */
  function Laid(texts: seq<Text>, level: nat, pretty: bool, tail: Text): Text {
    When(pretty, "\n") + (Entries(texts, level, pretty) + (When(pretty, Indent(level)) + tail))
  }

  lemma Assoc(a: Text, b: Text, c: Text, d: Text, e: Text, f: Text)
    ensures a + b + c + d + e + f == a + (b + (c + (d + (e + f))))
  {
  }

  lemma LaidStep(texts: seq<Text>, level: nat, pretty: bool, tail: Text)
    requires texts != []
    ensures Laid(texts, level, pretty, tail)
         == Lead(level, pretty)
            + (texts[0] + (Trail(|texts| == 1, level, pretty)
                           + if |texts| == 1 then tail else "," + Laid(texts[1..], level, pretty, tail)))
  {
    var n, i, j, t := When(pretty, "\n"), When(pretty, Indent(level + 1)), When(pretty, Indent(level)), texts[0];
    LaidParts(texts, level, pretty);
    hide Entries, Indent, Lead, Trail, When;
    if |texts| == 1 {
      LastAssoc(n, i, t, j, tail);
    } else {
      MoreAssoc(n, i, t, ",", Entries(texts[1..], level, pretty), j + tail);
    }
  }

  lemma LaidParts(texts: seq<Text>, level: nat, pretty: bool)
    requires texts != []
    ensures var n, i, j := When(pretty, "\n"), When(pretty, Indent(level + 1)), When(pretty, Indent(level));
            && Entries(texts, level, pretty)
               == (i + texts[0] + (if |texts| == 1 then [] else ",") + n)
                  + (if |texts| == 1 then [] else Entries(texts[1..], level, pretty))
            && Lead(level, pretty) == n + i
            && Trail(|texts| == 1, level, pretty) == if |texts| == 1 then n + j else []
  {
    IndentIs(level);
    IndentIs(level + 1);
    hide Indent;
  }

  lemma {:induction false} IndentIs(level: nat)
    ensures "\n" + Indent(level) == Line(level)
  {
    if level > 0 {
      IndentIs(level - 1);
      assert Indent(level)[4..] == Indent(level - 1) == Line(level - 1)[1..];
    }
  }

  lemma LastAssoc(n: Text, i: Text, t: Text, j: Text, tail: Text)
    ensures n + (((i + t + [] + n) + []) + (j + tail)) == (n + i) + (t + ((n + j) + tail))
  {
  }

  lemma MoreAssoc(n: Text, i: Text, t: Text, c: Text, more: Text, end: Text)
    ensures n + (((i + t + c + n) + more) + end) == (n + i) + (t + ([] + (c + (n + (more + end)))))
  {
  }

  lemma ContainerLaid(open: Text, texts: seq<Text>, level: nat, pretty: bool, close: Text, rest: Text)
    ensures Container(open, texts, level, pretty, close) + rest
         == open + if texts == [] then close + rest else Laid(texts, level, pretty, close + rest)
  {
    hide Indent;
    if texts != [] {
      hide Entries;
      Assoc(open, When(pretty, "\n"), Entries(texts, level, pretty), When(pretty, Indent(level)), close, rest);
    } else {
      Assoc(open, [], [], [], close, rest);
    }
  }

  /** The text of a value is the text of its document. */
  lemma {:induction false} Layout(lib: Libc, v: Json, level: nat, pretty: bool, rest: Text)
    ensures Serialize(lib, v, level, pretty) + rest == Write(DocOf(lib, v, level, pretty), rest)
    decreases v, 0
  {
    hide Container, Laid, WriteString, SerializeString, PiecesOf, WriteItems, WriteEntries;
    hide ItemTexts, MemberTexts, ItemDocs, EntryDocs, When, Indent, FixedText;
    FixedSerialized(lib, v, level, pretty);
    match v
    case Str(s) => SerializedString(s, rest);
    case Arr(items) => ArrayLayout(lib, items, level, pretty, rest);
    case Obj(ms) => ObjectLayout(lib, ms, level, pretty, rest);
    case _ =>
  }

  lemma {:induction false} ArrayLayout(lib: Libc, items: seq<Json>, level: nat, pretty: bool, rest: Text)
    ensures Container("[", ItemTexts(lib, items, 0, level + 1, pretty), level, pretty, "]") + rest
         == Write(Array(ItemDocs(lib, items, 0, level, pretty), []), rest)
    decreases items, |items| + 1
  {
    hide Container, Laid, WriteItems, ItemTexts, ItemDocs;
    ContainerLaid("[", ItemTexts(lib, items, 0, level + 1, pretty), level, pretty, "]", rest);
    if items != [] {
      ItemsLayout(lib, items, 0, level, pretty, "]" + rest);
    }
  }

  lemma {:induction false} ObjectLayout(lib: Libc, ms: seq<Member>, level: nat, pretty: bool, rest: Text)
    ensures Container("{", MemberTexts(lib, ms, 0, level + 1, pretty), level, pretty, "}") + rest
         == Write(Object(EntryDocs(lib, ms, 0, level, pretty), []), rest)
    decreases ms, |ms| + 1
  {
    hide Container, Laid, WriteEntries, MemberTexts, EntryDocs;
    ContainerLaid("{", MemberTexts(lib, ms, 0, level + 1, pretty), level, pretty, "}", rest);
    if ms != [] {
      MembersLayout(lib, ms, 0, level, pretty, "}" + rest);
    }
  }

  lemma FixedSerialized(lib: Libc, v: Json, level: nat, pretty: bool)
    ensures v.Null? || v.Bool? ==> Serialize(lib, v, level, pretty) == FixedText(v)
  {
  }

  lemma {:induction false} ItemsLayout(lib: Libc, items: seq<Json>, i: nat, level: nat, pretty: bool, tail: Text)
    requires i < |items|
    ensures Laid(ItemTexts(lib, items, i, level + 1, pretty), level, pretty, tail)
         == WriteItems(ItemDocs(lib, items, i, level, pretty), tail)
    decreases items, |items| - i
  {
    hide Serialize, Write, DocOf, Laid, Lead, Trail;
    var texts, docs := ItemTexts(lib, items, i, level + 1, pretty), ItemDocs(lib, items, i, level, pretty);
    LaidStep(texts, level, pretty, tail);
    Layout(lib, items[i], level + 1, pretty, AfterItem(docs, tail));
    assert texts[1..] == ItemTexts(lib, items, i + 1, level + 1, pretty);
    assert docs[1..] == ItemDocs(lib, items, i + 1, level, pretty);
    if i + 1 < |items| {
      ItemsLayout(lib, items, i + 1, level, pretty, tail);
    }
  }

  lemma MemberLayout(name: CStr, value: Text, pretty: bool, doc: Doc, rest: Text)
    requires value + rest == Write(doc, rest)
    ensures (NamePart(name, pretty) + value) + rest
         == WriteString(PiecesOf(name), [] + (":" + (BehindColon(pretty) + Write(doc, rest))))
  {
    hide SerializeString, WriteString, PiecesOf, Write;
    SerializedString(name, ":" + (When(pretty, " ") + (value + rest)));
    NameAssoc(SerializeString(name), ":", When(pretty, " "), value, rest);
  }

  lemma NameAssoc(a: Text, b: Text, c: Text, d: Text, e: Text)
    ensures ((a + (b + c)) + d) + e == a + (b + (c + (d + e)))
    ensures [] + (b + (c + (d + e))) == b + (c + (d + e))
  {
  }

  lemma {:induction false} MembersLayout(lib: Libc, ms: seq<Member>, i: nat, level: nat, pretty: bool, tail: Text)
    requires i < |ms|
    ensures Laid(MemberTexts(lib, ms, i, level + 1, pretty), level, pretty, tail)
         == WriteEntries(EntryDocs(lib, ms, i, level, pretty), tail)
    decreases ms, |ms| - i
  {
    hide Serialize, Write, DocOf, Laid, Lead, Trail, NamePart, WriteString, PiecesOf;
    var texts, docs := MemberTexts(lib, ms, i, level + 1, pretty), EntryDocs(lib, ms, i, level, pretty);
    var after := AfterEntry(docs, tail);
    LaidStep(texts, level, pretty, tail);
    var v := ValueNamed(ms, i);
    Layout(lib, v, level + 1, pretty, after);
    MemberLayout(ms[i].name, Serialize(lib, v, level + 1, pretty), pretty, DocOf(lib, v, level + 1, pretty), after);
    assert texts[1..] == MemberTexts(lib, ms, i + 1, level + 1, pretty);
    assert docs[1..] == EntryDocs(lib, ms, i + 1, level, pretty);
    if i + 1 < |ms| {
      MembersLayout(lib, ms, i + 1, level, pretty, tail);
    }
  }

  // Its tokens, gaps and meaning

  lemma LayoutIsSpace(level: nat, pretty: bool)
    ensures AllSpace(Lead(level, pretty)) && AllSpace(BehindColon(pretty))
    ensures forall last :: AllSpace(Trail(last, level, pretty))
  {
  }

  /** The document of a value stands for the value. */
  lemma {:induction false} DocOfMeans(lib: Libc, v: Json, level: nat, pretty: bool)
    requires NumbersPrintBack(lib, v) && WellFormed(v)
    ensures Tokens(lib, DocOf(lib, v, level, pretty)) && Spaced(DocOf(lib, v, level, pretty))
    ensures Meaning(lib, DocOf(lib, v, level, pretty)) == v
    decreases v, 0
  {
    hide PiecesOf, StringValue, Legal, ReadsAs;
    match v
    case Str(s) => PiecesOfValue(s);
    case Num(n) => ReadsAsWhole(lib, lib.sprintf(n), n);
    case Arr(items) =>
      var docs := ItemDocs(lib, items, 0, level, pretty);
      ItemDocsMean(lib, items, 0, level, pretty);
      NoSpace();
      ArrayMeans(lib, docs, [], items);
    case Obj(ms) =>
      var docs := EntryDocs(lib, ms, 0, level, pretty);
      EntryDocsMean(lib, ms, 0, level, pretty);
      NoSpace();
      ObjectMeans(lib, docs, [], ms);
    case _ =>
  }

  lemma ArrayMeans(lib: Libc, docs: seq<Item>, gap: Text, items: seq<Json>)
    requires ItemsReady(lib, docs) && ItemValues(lib, docs) == items && AllSpace(gap)
    ensures var d := Array(docs, gap); Tokens(lib, d) && Spaced(d) && Meaning(lib, d) == Arr(items)
  {
    ItemValuesAt(lib, docs);
  }

  lemma ObjectMeans(lib: Libc, docs: seq<Entry>, gap: Text, ms: seq<Member>)
    requires EntriesReady(lib, docs) && EntryMembers(lib, docs) == ms && AllSpace(gap)
    ensures var d := Object(docs, gap); Tokens(lib, d) && Spaced(d) && Meaning(lib, d) == Obj(ms)
  {
    EntryMembersAt(lib, docs);
  }

  lemma ItemsCons(lib: Libc, item: Item, more: seq<Item>)
    requires ItemReady(lib, item) && ItemsReady(lib, more)
    ensures ItemsReady(lib, [item] + more)
    ensures ItemValues(lib, [item] + more) == [Meaning(lib, item.value)] + ItemValues(lib, more)
  {
    hide ItemReady, Meaning;
    assert ([item] + more)[1..] == more;
  }

  lemma {:induction false} ItemDocsMean(lib: Libc, items: seq<Json>, i: nat, level: nat, pretty: bool)
    requires i <= |items| && forall j :: 0 <= j < |items| ==> NumbersPrintBack(lib, items[j]) && WellFormed(items[j])
    ensures ItemsReady(lib, ItemDocs(lib, items, i, level, pretty))
    ensures ItemValues(lib, ItemDocs(lib, items, i, level, pretty)) == items[i..]
    decreases items, |items| - i
  {
    hide NumbersPrintBack, WellFormed, DocOf, Lead, Trail, Tokens, Spaced, Meaning, AllSpace;
    if i < |items| {
      hide ItemsReady, ItemValues, ItemDocs;
      var item := ItemDocMeans(lib, items[i], level, pretty, i + 1 == |items|);
      ItemDocsStep(lib, items, i, level, pretty);
      hide ItemReady;
      ItemDocsMean(lib, items, i + 1, level, pretty);
      ItemsCons(lib, item, ItemDocs(lib, items, i + 1, level, pretty));
      FromHead(items, i);
    }
  }

  lemma ItemDocMeans(lib: Libc, v: Json, level: nat, pretty: bool, last: bool) returns (item: Item)
    requires NumbersPrintBack(lib, v) && WellFormed(v)
    ensures item == Item(Lead(level, pretty), DocOf(lib, v, level + 1, pretty), Trail(last, level, pretty))
    ensures ItemReady(lib, item) && Meaning(lib, item.value) == v
    decreases v, 1
  {
    hide NumbersPrintBack, WellFormed, DocOf, Lead, Trail, Tokens, Spaced, Meaning, AllSpace;
    LayoutIsSpace(level, pretty);
    DocOfMeans(lib, v, level + 1, pretty);
    item := Item(Lead(level, pretty), DocOf(lib, v, level + 1, pretty), Trail(last, level, pretty));
  }

  lemma ItemDocsStep(lib: Libc, items: seq<Json>, i: nat, level: nat, pretty: bool)
    requires i < |items|
    ensures ItemDocs(lib, items, i, level, pretty)
         == [Item(Lead(level, pretty), DocOf(lib, items[i], level + 1, pretty), Trail(i + 1 == |items|, level, pretty))]
            + ItemDocs(lib, items, i + 1, level, pretty)
  {
    hide DocOf, Lead, Trail;
  }

  lemma EntriesCons(lib: Libc, e: Entry, more: seq<Entry>)
    requires EntryReady(lib, e) && EntriesReady(lib, more)
    ensures EntriesReady(lib, [e] + more)
    ensures EntryMembers(lib, [e] + more) == [MemberOf(lib, e)] + EntryMembers(lib, more)
  {
    hide Meaning, StringValue, ItemReady;
    assert ([e] + more)[1..] == more;
  }

  lemma ValueAt(ms: seq<Member>, i: nat)
    requires i < |ms| && DistinctNames(ms)
    ensures ValueNamed(ms, i) == ms[i].value
  {
    LookupAt(ms, i);
  }

  lemma EntryDocMeans(lib: Libc, m: Member, level: nat, pretty: bool, after: Text) returns (e: Entry)
    requires NumbersPrintBack(lib, m.value) && WellFormed(m.value) && AllSpace(after)
    ensures e == Entry(Lead(level, pretty), PiecesOf(m.name), [],
                       Item(BehindColon(pretty), DocOf(lib, m.value, level + 1, pretty), after))
    ensures EntryReady(lib, e) && MemberOf(lib, e) == m
    decreases m, 1
  {
    hide NumbersPrintBack, WellFormed, DocOf, Lead, Tokens, Spaced, Meaning, AllSpace, PiecesOf;
    hide Legal, StringValue, Decoded;
    LayoutIsSpace(level, pretty);
    NoSpace();
    PiecesOfValue(m.name);
    DocOfMeans(lib, m.value, level + 1, pretty);
    e := Entry(Lead(level, pretty), PiecesOf(m.name), [],
               Item(BehindColon(pretty), DocOf(lib, m.value, level + 1, pretty), after));
  }

  lemma EntryDocsStep(lib: Libc, ms: seq<Member>, i: nat, level: nat, pretty: bool)
    requires i < |ms|
    ensures EntryDocs(lib, ms, i, level, pretty)
         == [Entry(Lead(level, pretty), PiecesOf(ms[i].name), [],
                   Item(BehindColon(pretty), DocOf(lib, ValueNamed(ms, i), level + 1, pretty),
                        Trail(i + 1 == |ms|, level, pretty)))]
            + EntryDocs(lib, ms, i + 1, level, pretty)
  {
    hide DocOf, PiecesOf, Lead, Trail, When, ValueNamed;
  }

  lemma {:induction false} EntryDocsMean(lib: Libc, ms: seq<Member>, i: nat, level: nat, pretty: bool)
    requires i <= |ms| && DistinctNames(ms)
    requires forall j :: 0 <= j < |ms| ==> NumbersPrintBack(lib, ms[j].value) && WellFormed(ms[j].value)
    ensures EntriesReady(lib, EntryDocs(lib, ms, i, level, pretty))
    ensures EntryMembers(lib, EntryDocs(lib, ms, i, level, pretty)) == ms[i..]
    decreases ms, |ms| - i
  {
    hide NumbersPrintBack, WellFormed, DocOf, Lead, Trail, AllSpace, PiecesOf, EntryReady, MemberOf, ValueNamed;
    hide DistinctNames;
    if i < |ms| {
      hide EntryDocs, EntriesReady, EntryMembers, When;
      EntryDocsStep(lib, ms, i, level, pretty);
      LayoutIsSpace(level, pretty);
      ValueAt(ms, i);
      var e := EntryDocMeans(lib, ms[i], level, pretty, Trail(i + 1 == |ms|, level, pretty));
      EntryDocsMean(lib, ms, i + 1, level, pretty);
      EntriesCons(lib, e, EntryDocs(lib, ms, i + 1, level, pretty));
      FromHead(ms, i);
    }
  }

  lemma FromHead<T>(s: seq<T>, i: nat)
    requires i < |s|
    ensures s[i..] == [s[i]] + s[i + 1..]
  {
  }

  lemma NoSpace()
    ensures AllSpace([])
  {
  }

  lemma PiecesOfValue(s: CStr)
    ensures Legal(PiecesOf(s)) && StringValue(PiecesOf(s)) == s
  {
    hide PiecesOf, Decoded;
    PiecesOfMean(s);
  }

  /** Its gaps are whitespace, whatever the value. */
  lemma {:induction false} DocOfSpaced(lib: Libc, v: Json, level: nat, pretty: bool)
    ensures Spaced(DocOf(lib, v, level, pretty))
    decreases v, 1
  {
    hide PiecesOf, ItemDocs, EntryDocs, AllSpace;
    match v
    case Arr(items) => ItemDocsSpaced(lib, items, level, pretty);
    case Obj(ms) => EntryDocsSpaced(lib, ms, level, pretty);
    case _ =>
  }

  lemma {:induction false} ItemDocsSpaced(lib: Libc, items: seq<Json>, level: nat, pretty: bool)
    ensures Spaced(Array(ItemDocs(lib, items, 0, level, pretty), []))
    decreases items, 0
  {
    hide ItemDocs, DocOf, Lead, Trail, AllSpace;
    NoSpace();
    LayoutIsSpace(level, pretty);
    var docs := ItemDocs(lib, items, 0, level, pretty);
    forall i | 0 <= i < |items|
      ensures AllSpace(docs[i].before) && AllSpace(docs[i].after) && AllGaps(docs[i].value, (t: Text) => AllSpace(t))
    {
      ItemDocAt(lib, items, 0, i, level, pretty);
      DocOfSpaced(lib, items[i], level + 1, pretty);
    }
  }

  lemma {:induction false} EntryDocsSpaced(lib: Libc, ms: seq<Member>, level: nat, pretty: bool)
    ensures Spaced(Object(EntryDocs(lib, ms, 0, level, pretty), []))
    decreases ms, 1
  {
    hide EntryDocs, AllSpace;
    NoSpace();
    var docs := EntryDocs(lib, ms, 0, level, pretty);
    forall i | 0 <= i < |ms|
      ensures AllSpace(docs[i].before) && AllSpace(docs[i].colon) && AllSpace(docs[i].item.before)
      ensures AllSpace(docs[i].item.after) && AllGaps(docs[i].item.value, (t: Text) => AllSpace(t))
    {
      EntryDocSpaced(lib, ms, i, level, pretty);
    }
  }

  lemma {:induction false} EntryDocSpaced(lib: Libc, ms: seq<Member>, i: nat, level: nat, pretty: bool)
    requires i < |ms|
    ensures var e := EntryDocs(lib, ms, 0, level, pretty)[i];
            && AllSpace(e.before) && AllSpace(e.colon) && AllSpace(e.item.before)
            && AllSpace(e.item.after) && AllGaps(e.item.value, (t: Text) => AllSpace(t))
    decreases ms, 0
  {
    hide EntryDocs, DocOf, Lead, Trail, BehindColon, AllSpace, PiecesOf, AllGaps;
    NoSpace();
    LayoutIsSpace(level, pretty);
    EntryDocAt(lib, ms, 0, i, level, pretty);
    var v := ValueNamed(ms, i);
    hide ValueNamed;
    DocOfSpaced(lib, v, level + 1, pretty);
    assert Spaced(DocOf(lib, v, level + 1, pretty));
  }

  lemma {:induction false} ItemDocAt(lib: Libc, items: seq<Json>, from: nat, i: nat, level: nat, pretty: bool)
    requires from + i < |items|
    ensures ItemDocs(lib, items, from, level, pretty)[i]
         == Item(Lead(level, pretty), DocOf(lib, items[from + i], level + 1, pretty),
                 Trail(from + i + 1 == |items|, level, pretty))
    decreases i
  {
    hide DocOf, Lead, Trail, ItemDocs;
    ItemDocsStep(lib, items, from, level, pretty);
    if i > 0 {
      ItemDocAt(lib, items, from + 1, i - 1, level, pretty);
    }
  }

  lemma {:induction false} EntryDocAt(lib: Libc, ms: seq<Member>, from: nat, i: nat, level: nat, pretty: bool)
    requires from + i < |ms|
    ensures EntryDocs(lib, ms, from, level, pretty)[i]
         == Entry(Lead(level, pretty), PiecesOf(ms[from + i].name), [],
                  Item(BehindColon(pretty), DocOf(lib, ValueNamed(ms, from + i), level + 1, pretty),
                       Trail(from + i + 1 == |ms|, level, pretty)))
    decreases i
  {
    hide DocOf, PiecesOf, Lead, Trail, When, ValueNamed, EntryDocs;
    EntryDocsStep(lib, ms, from, level, pretty);
    if i > 0 {
      EntryDocAt(lib, ms, from + 1, i - 1, level, pretty);
    }
  }

  /** Its numerals are taken when they read back. */
  lemma {:induction false} DocOfTaken(lib: Libc, v: Json, level: nat, pretty: bool)
    requires NumbersPrintBack(lib, v)
    ensures NumeralsTaken(lib, DocOf(lib, v, level, pretty))
    decreases v, 1
  {
    hide PiecesOf, ItemDocs, EntryDocs;
    match v
    case Num(n) => ReadsAsWhole(lib, lib.sprintf(n), n);
    case Arr(items) => ItemDocsTaken(lib, items, level, pretty);
    case Obj(ms) => EntryDocsTaken(lib, ms, level, pretty);
    case _ =>
  }

  lemma {:induction false} ItemDocsTaken(lib: Libc, items: seq<Json>, level: nat, pretty: bool)
    requires forall i :: 0 <= i < |items| ==> NumbersPrintBack(lib, items[i])
    ensures NumeralsTaken(lib, Array(ItemDocs(lib, items, 0, level, pretty), []))
    decreases items, 0
  {
    hide ItemDocs, DocOf, NumeralsTaken, NumbersPrintBack;
    var docs := ItemDocs(lib, items, 0, level, pretty);
    forall i | 0 <= i < |items| ensures NumeralsTaken(lib, docs[i].value) {
      ItemDocAt(lib, items, 0, i, level, pretty);
      DocOfTaken(lib, items[i], level + 1, pretty);
    }
    ArrayTaken(lib, docs, []);
  }

  lemma {:induction false} EntryDocsTaken(lib: Libc, ms: seq<Member>, level: nat, pretty: bool)
    requires forall i :: 0 <= i < |ms| ==> NumbersPrintBack(lib, ms[i].value)
    ensures NumeralsTaken(lib, Object(EntryDocs(lib, ms, 0, level, pretty), []))
    decreases ms, 1
  {
    hide EntryDocs, NumeralsTaken, NumbersPrintBack;
    var docs := EntryDocs(lib, ms, 0, level, pretty);
    forall i | 0 <= i < |ms| ensures NumeralsTaken(lib, docs[i].item.value) {
      EntryDocTaken(lib, ms, i, level, pretty);
    }
    ObjectTaken(lib, docs, []);
  }

  lemma {:induction false} EntryDocTaken(lib: Libc, ms: seq<Member>, i: nat, level: nat, pretty: bool)
    requires i < |ms| && forall j :: 0 <= j < |ms| ==> NumbersPrintBack(lib, ms[j].value)
    ensures NumeralsTaken(lib, EntryDocs(lib, ms, 0, level, pretty)[i].item.value)
    decreases ms, 0
  {
    hide EntryDocs, DocOf, NumeralsTaken, NumbersPrintBack, ValueNamed, PiecesOf, Lead, Trail, When;
    EntryDocAt(lib, ms, 0, i, level, pretty);
    DocOfTaken(lib, ValueNamed(ms, i), level + 1, pretty);
  }

  // ----- The round trips

  /** Parsing a serialised value gives the value back and leaves the cursor on what follows it. */
  lemma ParseBack(lib: Libc, v: Json, level: nat, pretty: bool, nesting: nat, rest: Text)
    requires WellFormed(v) && Fits(v, nesting) && NumbersPrintBack(lib, v) && EndsNumber(Head(rest))
    ensures ParseValue(lib, Serialize(lib, v, level, pretty) + rest, nesting) == Success(v, rest)
  {
    hide Serialize, ParseValue, Write, DocOf, Tokens, Spaced, Meaning, WellFormed, Fits, NumeralsTaken;
    DocOfMeans(lib, v, level, pretty);
    DocOfTaken(lib, v, level, pretty);
    Layout(lib, v, level, pretty, rest);
    ParseWritten(lib, DocOf(lib, v, level, pretty), nesting, rest);
  }

  /** json_parse_string undoes json_serialize_to_string and json_serialize_to_string_pretty. */
  lemma ParseSerialized(lib: Libc, v: Json, pretty: bool)
    requires WellFormed(v) && Fits(v, 0) && NumbersPrintBack(lib, v)
    ensures ParseText(lib, Serialize(lib, v, 0, pretty)) == Success(v, [])
  {
    hide Serialize, ParseText, Write, DocOf, Tokens, Spaced, Meaning, WellFormed, Fits, NumeralsTaken;
    var t := Serialize(lib, v, 0, pretty);
    DocOfMeans(lib, v, 0, pretty);
    DocOfTaken(lib, v, 0, pretty);
    Layout(lib, v, 0, pretty, []);
    NoSpace();
    ParseDocument(lib, [], DocOf(lib, v, 0, pretty), []);
    assert t + [] == t && [] + Write(DocOf(lib, v, 0, pretty), []) == t;
  }

  /** Whatever text was accepted, its tree is serialised and parsed back without change, when its numbers read back
      as they are printed. */
  lemma ReparseParsed(lib: Libc, t: Text, pretty: bool)
    requires ParseText(lib, t).Success? && NumbersPrintBack(lib, ParseText(lib, t).value)
    ensures var v := ParseText(lib, t).value; ParseText(lib, Serialize(lib, v, 0, pretty)) == Success(v, [])
  {
    hide ParseValue, Serialize;
    var u := if At(t, 0) as int == 0xEF && At(t, 1) as int == 0xBB && At(t, 2) as int == 0xBF then t[3..] else t;
    ParsedValueIsGood(lib, u, 0);
    ParseSerialized(lib, ParseText(lib, t).value, pretty);
  }

  /** Every number that strtod returns within range is printed so that it reads back. That is more than C promises:
      a subnormal can be read exactly and reported as out of range when its 17 digits are read. */
  ghost predicate ReadNumbersPrintBack(lib: Libc) {
    forall t :: lib.strtod(t).inRange && lib.strtod(t).value.Some? ==> PrintsBack(lib, lib.strtod(t).value.value)
  }

  /** With such a libc every accepted text is serialised and parsed back without change. */
  lemma ReparseAll(lib: Libc, t: Text, pretty: bool)
    requires ReadNumbersPrintBack(lib) && ParseText(lib, t).Success?
    ensures var v := ParseText(lib, t).value; ParseText(lib, Serialize(lib, v, 0, pretty)) == Success(v, [])
  {
    hide ParseValue, Serialize, ReadNumbersPrintBack;
    var u := if At(t, 0) as int == 0xEF && At(t, 1) as int == 0xBB && At(t, 2) as int == 0xBF then t[3..] else t;
    ParsedNumbers(lib, u, 0);
    ReparseParsed(lib, t, pretty);
  }

  /** Parsed numbers came from strtod. */
  lemma {:induction false} ParsedNumbers(lib: Libc, t: Text, nesting: nat)
    requires ReadNumbersPrintBack(lib) && ParseValue(lib, t, nesting).Success?
    ensures NumbersPrintBack(lib, ParseValue(lib, t, nesting).value)
    decreases |t|, 2
  {
    hide ParseMembers, ParseElements, SkipSpace, GetQuoted, PrintsBack, IsDecimal;
    var t := SkipSpace(t);
    if Head(t) == '{' {
      var u := SkipSpace(t[1..]);
      if Head(u) != '}' {
        ParsedMembersNumbers(lib, u, nesting + 1, []);
      }
    } else if Head(t) == '[' {
      var u := SkipSpace(t[1..]);
      if Head(u) != ']' {
        ParsedElementsNumbers(lib, u, nesting + 1, []);
      }
    }
  }

  lemma {:induction false} ParsedMembersNumbers(lib: Libc, t: Text, nesting: nat, acc: seq<Member>)
    requires ReadNumbersPrintBack(lib) && ParseMembers(lib, t, nesting, acc).Success?
    requires forall i :: 0 <= i < |acc| ==> NumbersPrintBack(lib, acc[i].value)
    ensures NumbersPrintBack(lib, ParseMembers(lib, t, nesting, acc).value)
    decreases |t|, 0
  {
    hide ParseValue, SkipSpace, GetQuoted, ReadNumbersPrintBack, Lookup, PrintsBack;
    var (key, t1) := GetQuoted(t).value;
    var t2 := SkipSpace(t1);
    ParsedNumbers(lib, t2[1..], nesting);
    var Success(v, t3) := ParseValue(lib, t2[1..], nesting);
    var t4 := SkipSpace(t3);
    if Head(t4) == ',' {
      ParsedMembersNumbers(lib, SkipSpace(t4[1..]), nesting, acc + [Member(key, v)]);
    }
  }

  lemma {:induction false} ParsedElementsNumbers(lib: Libc, t: Text, nesting: nat, acc: seq<Json>)
    requires ReadNumbersPrintBack(lib) && ParseElements(lib, t, nesting, acc).Success?
    requires forall i :: 0 <= i < |acc| ==> NumbersPrintBack(lib, acc[i])
    ensures NumbersPrintBack(lib, ParseElements(lib, t, nesting, acc).value)
    decreases |t|, 3
  {
    hide ParseValue, SkipSpace, ReadNumbersPrintBack, PrintsBack;
    ParsedNumbers(lib, t, nesting);
    var Success(v, t3) := ParseValue(lib, t, nesting);
    var t4 := SkipSpace(t3);
    if Head(t4) == ',' {
      ParsedElementsNumbers(lib, SkipSpace(t4[1..]), nesting, acc + [v]);
    }
  }
}
